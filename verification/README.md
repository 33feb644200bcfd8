# Verification of parts of the Go 1.14 standard library

A Dafny model of fourteen files of the Go standard library, with proofs of what
those files are for. `dafny verify dfyconfig.toml` checks the whole project.

Four families of code are modelled.

* **Bit-exact arithmetic** (`math/sqrt.go`, `math/fma.go`). Floats are 64-bit
  patterns; `Float64.Magnitude` gives the value of a pattern as an exact integer in
  units of 2^-1074, and infinity counts as 2^1024. The specification is
  round-to-nearest-even (section 4.3.1 of IEEE 754-2008), stated without reference to
  any algorithm and shown to determine the result (`NearestEvenUnique`). Words are
  naturals below 2^64 with explicit wrap-around (`Words`, `WordPairs`).
* **Concurrent protocols** (`context/context.go`, `io/pipe.go`, `net/dial.go`). Each
  is a step system: a critical section, a channel rendezvous or a timer event is one
  step, every interleaving of every number of callers is a run, and the theorems
  speak of every state of every run. In `Context` every goroutine has a stack of
  frames, so that the recursion of `cancel` and its nested locks are visible.
* **Buffered streams** (`bufio/bufio.go`, `bufio/scan.go`, `bytes/buffer.go`,
  `fmt/scan.go`). The underlying reader is an arbitrary finite script of (chunk,
  error) results and the underlying writer may take any part of what it is given.
  The classes keep the fields of the source and change them in place; each method is
  proved against an abstract view (the bytes still to come and the error that ends
  them) that does not mention chunks, buffer sizes or growth.
* **Algorithms and codecs** (`bytes/bytes.go`, `html/escape.go`,
  `mime/mediatype.go`, `mime/encodedword.go`, `fmt/format.go`). Searching with a
  rolling hash, splitting and replacing, unescaping in place, the two MIME
  encodings and integer formatting, each proved against a declarative
  specification, with the round trips that the documentation promises.

Several results are about behaviour that a reader of the documentation would not
expect. The model follows the code in each case.

* `Fma.FMA`: where x*y and z cancel exactly, the result is a zero with the sign of
  the product; round-to-nearest asks for +0 there. (-1)*1 + 1 gives -0
  (`Fma.CancelOne`).
* `Html.NumericFollowsStandard`: a numeric reference is decoded as the HTML standard
  asks if and only if it does not consist of one decimal digit without a semicolon,
  does not have the form "&#x;", and its number means the same character when taken
  as a 32-bit integer. "&#1x" stays as it is (`Html.BareDigitStays`), "&#x;" becomes
  U+FFFD (`Html.EmptyHexBecomesError`), and "&#4294967361;" is read as "A"
  (`Html.LargeNumberWraps`).
* `MediaTypeRoundTrip.TrailingSemicolonSkipsStitching`: one more semicolon at the end of
  a text that parses leaves the result as it is if and only if the text does not end in
  a semicolon already (or one and white space) and stitching adds nothing: from each group of pieces of a
  parameter comes no value, or the one that the parameter has without a star. Otherwise
  the parser drops what would have been stitched, since it returns before that, or
  reports an invalid parameter; "a;" parses and "a;;" does not
  (`MediaTypeRoundTrip.SecondSemicolonFails`). Of formatted text exactly the values that
  were percent-encoded are lost (`MediaTypeRoundTrip.TrailingSemicolonLosesEncoded`),
  but "; t*0=a;" loses its parameter too (`MediaTypeRoundTrip.PlainPieceIsLost`).
* `Buffer.ReadBytesThenUnread`: after a `ReadBytes`, `UnreadByte` does what its
  documentation says if and only if the delimiter was found; otherwise it succeeds
  although an error is promised, and after a `ReadBytes` on an empty buffer it can
  bring back a byte that was read before (`Buffer.EmptyReadBytesThenUnread`).
* `RuneReader.RuneReader.UnreadRune`: it is refused exactly if there is no rune to
  give back, except on a new reader, where it succeeds and makes the next rune 0
  (`RuneReader.UnreadFirst`). A rune that was unread is returned with the same size
  if and only if it is not a U+FFFD that stands for a bad byte
  (`RuneReader.ReadUnreadRead`).

## Model

| member | source | states |
|---|---|---|
| Sqrt.Sqrt | src/math/sqrt.go:99-144 | the result is the round-to-nearest-even of the real square root for every positive finite input, subnormals included; zeros, NaN and +Inf are returned, negative inputs give NaN |
| Sqrt.RootBits | src/math/sqrt.go:124-137 | the bit loop ends with the integer square root of the scaled significand, and with remainder 0 exactly when the root is exact; no step overflows a uint64 |
| Sqrt.BitStep | src/math/sqrt.go:128-137 | one round of the bit loop turns the root with n bits into the root with n+1 bits |
| Sqrt.RoundedRoot | src/math/sqrt.go:138-142 | rounding the extra bit never meets a tie and never carries out of the significand |
| Sqrt.RootOfIsNearest | src/math/sqrt.go:99-144 | a pattern whose midpoints enclose the root in integers is the nearest even to the real root |
| Float64.NearestEvenUnique | src/math/fma.go:93-95 | at most one pattern is nearest-even to a real: the specification fixes every bit of a result |
| Fma.FMA | src/math/fma.go:95-169 | for finite nonzero x, y, z with x*y+z != 0 the result is the round-to-nearest-even of the exact value with its sign, including subnormal results and overflow to infinity; a z that is not finite is returned; exact cancellation gives a zero with the sign of the product |
| Fma.CancelOne | src/math/fma.go:144-155 | (-1)*1 + 1 is -0: the input at which exact cancellation departs from round-to-nearest |
| Fma.Product | src/math/fma.go:114-128 | the 128-bit product represents the exact product with its leading bit in a fixed place |
| Fma.Combine | src/math/fma.go:130-155 | the sum of product and addend, shifted into one word, differs from the exact sum only by a sticky bit |
| Fma.RoundedIsNearest | src/math/fma.go:157-169 | the final rounding of ten bits yields the pattern nearest to the exact value, ties to even |
| Fma.OverflowIsNearest | src/math/fma.go:157-161 | when the overflow branch is taken, infinity is the nearest value |
| WordPairs.ShrCompressIsSticky | src/math/fma.go:39-63 | shrcompress divides by 2^n, for every n, and sets the lowest bit exactly when a bit was lost |
| WordPairs.ShlPairExact | src/math/fma.go:27-31 | shl multiplies the 128-bit value by 2^n when nothing is shifted out |
| WordPairs.LeadingZerosPairBounds | src/math/fma.go:65-71 | lz is the number of leading zeros of the 128-bit value |
| StickyShift.StickyCompare | src/math/fma.go:39-42 | a sticky value compares with an even threshold as the exact value does: the shift preserves later rounding |
| ContextSteps.StepKeepsInv | src/context/context.go:247-323 | every step in every interleaving keeps the invariant of tree, locks and stacks |
| ContextTheorems.DoneIffErr | src/context/context.go:391-405 | in every reachable state done is closed exactly when err is set, and has been closed at most once |
| ContextTheorems.ErrIsForever | src/context/context.go:395-400 | once err is set it never changes, in any continuation of any run |
| ContextTheorems.NoUncancelledDescendant | src/context/context.go:391-416 | a cancelled context whose mutex is free has no attached descendant, at any depth, that is still uncancelled |
| ContextTheorems.CancelReturned | src/context/context.go:232-235 | once a call of a CancelFunc, or of a timer, has returned, its context and every attached descendant is cancelled, then and in every later state, whichever goroutine cancelled them |
| ContextTheorems.ReturnedIsSettled | src/context/context.go:232-237 | every context that has been returned to a caller is attached, or has been cancelled, and has an older parent |
| ContextTheorems.NoWatcher | src/context/context.go:273-282 | with built-in contexts only, the branch that starts a watching goroutine is never reached |
| ContextTheorems.NoDeadlock | src/context/context.go:391-416 | while any call is in progress some goroutine can move: the nested locks of cancel cannot block one another |
| ContextTheorems.StepsAreBounded | src/context/context.go:405-410 | every step of a call uses up work: the recursion of cancel terminates however calls interleave |
| ContextErrors.ErrHasCause | src/context/context.go:232-235 | in every run the error of a cancelled context is Canceled from a call of its own CancelFunc, DeadlineExceeded from its own deadline, or the error of its parent |
| ContextErrors.CancelledByParent | src/context/context.go:247-269 | a context that nobody cancelled on its own account has the error of its parent once it is cancelled |
| ContextErrors.NeverCanceled | src/context/context.go:438-448 | in a run without a call of a CancelFunc no context reports Canceled |
| ContextErrors.OnlyCanceled | src/context/context.go:232-235 | in a run without deadlines every cancelled context reports Canceled |
| ContextCleanup.NothingLeft | src/context/context.go:391-416 | once the calls that work on a cancelled context have returned, its timer is stopped, it has no children, and its parent no longer lists it, or is just giving up all its children |
| ContextCleanup.DeadlineIsArmed | src/context/context.go:442-448 | a context with a deadline that has been returned and is not cancelled has its timer running |
| Pipe.StepKeepsInv | src/io/pipe.go:50-122 | every step of any number of readers, writers and closers keeps the protocol's invariant |
| Pipe.Conservation | src/io/pipe.go:50-104 | the bytes readers got, in handoff order, are exactly the bytes writers gave up, in lock order |
| Pipe.WriteResult | src/io/pipe.go:84-104 | a Write returns the count its readers took; the error is nil only if that is all of b, and not nil only on a closed pipe |
| Pipe.ReadResult | src/io/pipe.go:50-65 | a Read returns a chunk without error exactly if it took part in a handoff; otherwise no bytes and the error of a closed pipe |
| Pipe.OwnWriterWaits | src/io/pipe.go:56-62 | a reader that took a chunk finds its own writer, and no other, waiting on rdCh, also after a close |
| Pipe.ClosedOnce | src/io/pipe.go:75-81 | done is closed at most once, and only after an error was stored |
| Pipe.ReportedErrors | src/io/pipe.go:67-73 | if only one side was closed, the other side's calls report that side's error |
| Pipe.FirstErrorStays | src/io/pipe.go:21-27 | the first error stored on each side is never replaced |
| PipeErrors.ReadReportsFirstClose | src/io/pipe.go:67-73 | while the reading side is open, a Read that fails reports the error of the CloseWrite that was first to store, and EOF if that call had none |
| PipeErrors.WriteReportsFirstClose | src/io/pipe.go:106-112 | while the writing side is open, a Write that fails reports the error of the CloseRead that was first to store, and ErrClosedPipe if that call had none |
| PipeErrors.OnlyCloseWrite | src/io/pipe.go:114-121 | on a pipe closed only by CloseWrite(nil) every Read that fails returns EOF and every Write that fails ErrClosedPipe |
| PipeErrors.OnlyCloseRead | src/io/pipe.go:75-82 | on a pipe closed only by CloseRead(nil) every call that fails returns ErrClosedPipe |
| PipeErrors.OwnSideClosedRead | src/io/pipe.go:67-73 | a Read that loads the errors after its own side was closed returns ErrClosedPipe, also if both sides are closed |
| PipeErrors.OwnSideClosedWrite | src/io/pipe.go:106-112 | the same for a Write |
| Pipe.ClosedPipeMoves | src/io/pipe.go:50-104 | on a closed pipe every call that is still inside can come out: somebody can always take a step |
| Pipe.StepsAreBounded | src/io/pipe.go:84-104 | no call goes on for ever without a new call |
| DialParallel.ConnectionsAccountedFor | src/net/dial.go:464-477 | once a racer has finished, its connection is the one returned and is open, or it has been closed |
| DialParallel.ReturnedConnection | src/net/dial.go:490-518 | a returned connection is open and comes from exactly one racer |
| DialParallel.FallbackStartsOnce | src/net/dial.go:486-515 | the fallback racer is started at most once |
| DialParallel.FailureIsPrimarys | src/net/dial.go:501-508 | failure is returned only after both racers have failed, with the primary's error |
| DialParallel.CallerMakesProgress | src/net/dial.go:490-517 | until it has returned, the caller can always get further: no state of the race hangs |
| DialParallel.StepsAreBounded | src/net/dial.go:490-517 | the race ends after boundedly many steps |
| DialParallel.RacersFinish | src/net/dial.go:470-476 | no racer is left blocked after the caller has returned |
| DialSerial.PartialDeadlineIsFair | src/net/dial.go:138-158 | the deadline of one address lies between now and the whole deadline, every address gets its share of the remaining time, at least two seconds while that much is left and no more than the larger of the two, and a timeout is reported exactly if the deadline has passed |
| DialSerial.DialAll | src/net/dial.go:522-562 | the first connection wins; a context that is done hides earlier errors behind its own; otherwise the error of the first address, a timeout, or a missing-address error for no addresses |
| Streams.ReadDelivers | src/bufio/bufio.go:100-114 | one Read takes a prefix of what a script will deliver, whatever the length of its buffer |
| BufioReader.Reader.Fill | src/bufio/bufio.go:86-114 | filling slides and reads without changing what the reader still owes to its caller |
| BufioReader.Reader.ReadSlice | src/bufio/bufio.go:330-369 | the line through the first delimiter, or everything with the pending error, or a full buffer without a delimiter; the index s is never stale after a slide |
| BufioReader.Reader.ReadBytes | src/bufio/bufio.go:429-465 | exactly the stream through the first delimiter with nil error, or all the rest with the reader's error, for every chunking and every buffer size |
| BufioReader.Reader.ReadByte | src/bufio/bufio.go:246-258 | the next byte of the stream, or its error once it is used up |
| BufioReader.Reader.UnreadByte | src/bufio/bufio.go:265-280 | the last byte goes back to the front of the stream, or the call is refused |
| BufioReader.ReadThenUnread | src/bufio/bufio.go:246-280 | a byte read and unread leaves the stream as it was |
| BufioReader.PiecesSoFar | src/bufio/bufio.go:437-464 | full buffers put together with the last slice are what ReadBytes owes |
| BufioWriter.Writer.Flush | src/bufio/bufio.go:584-605 | nothing accepted is lost, also when the underlying writer takes a part; there is a new error if and only if the Write below returned one or took less than it was offered, and it sticks |
| BufioWriter.Writer.Write | src/bufio/bufio.go:617-639 | exactly the first nn bytes of p are accepted, all of them unless there is an error; there is a new one if and only if a Write below failed, which then is the last |
| BufioWriter.Writer.WriteByte | src/bufio/bufio.go:642-653 | the byte is accepted exactly if the error is nil; a new error is that of the failed Write below |
| BufioWriter.Writer.WriteString | src/bufio/bufio.go:687-703 | as Write, always through the buffer |
| BufioWriter.Writer.ReadFrom | src/bufio/bufio.go:708-752 | the bytes reported as read are accepted, and they are all that the reader delivers unless a Write below fails |
| BufioWriter.Run | src/bufio/bufio.go:584-752 | over any run of calls, bytes taken below followed by buf[:n] are exactly the bytes reported as accepted, nothing is accepted after the first call that failed, and there is an error if and only if a Write below returned one or fell short in a Flush: the first such Write is the last, and its error stays |
| Scanner.Scanner.Split | src/bufio/scan.go:144-171 | a token is the first line of all the text still to come, and the panic on empty tokens is unreachable |
| Scanner.Scanner.MakeRoom | src/bufio/scan.go:180-208 | shifting and doubling keep the unscanned bytes and make room, or the buffer is at its limit |
| Scanner.Scanner.Scan | src/bufio/scan.go:134-230 | the next line of the text, or false at its end with the reader's error, or false because a line does not fit |
| Scanner.ScanAll | src/bufio/scan.go:134-251 | the tokens are the lines of the delivered bytes for all chunks and buffers; on ErrTooLong they are the lines before one that is too long |
| Scanner.FirstLine | src/bufio/scan.go:345-359 | what ScanLines finds in the buffer is the first line of the whole text |
| ScannerLines.LinesAsWritten | src/bufio/scan.go:332-359 | a text written line by line, with LF or CR LF, has the contents of its lines as tokens, and a last one without a newline if it is not empty |
| ScannerLines.EveryTextIsWritten | src/bufio/scan.go:332-359 | every text has been written in that way |
| RollingHash.PowRK | src/bytes/bytes.go:1114-1120 | repeated squaring yields primeRK^len mod 2^32 |
| RollingHash.HashStr | src/bytes/bytes.go:1109-1122 | hash of a text as a number in base primeRK mod 2^32, with the weight of its first digit |
| RollingHash.HashStrRev | src/bytes/bytes.go:1126-1139 | the same for the reversed text |
| RollingHash.Roll | src/bytes/bytes.go:1093-1095 | the rolled hash is the hash of the next window, in uint32 arithmetic |
| RollingHash.RollBack | src/bytes/bytes.go:130-132 | the same for the search from the end |
| Search.Index | src/bytes/bytes.go:994-1079 | the first occurrence, or -1 exactly if there is none, through every branch and for every tuning |
| Search.IndexShort | src/bytes/bytes.go:1013-1042 | the branch with the cutover to bytealg.Index skips no match, wherever the cutover is |
| Search.IndexLong | src/bytes/bytes.go:1044-1078 | the branch with the cutover to Rabin-Karp skips no match |
| Search.IndexRabinKarp | src/bytes/bytes.go:1081-1102 | the first occurrence: comparing hashes first loses no match |
| Search.LastIndex | src/bytes/bytes.go:104-138 | the last occurrence, or -1 exactly if there is none |
| Search.LastRabinKarp | src/bytes/bytes.go:119-137 | the last occurrence, for the search from the end |
| Search.FirstIndexIsFirst | src/bytes/bytes.go:993-994 | the specification function names the first occurrence |
| Split.Count | src/bytes/bytes.go:55-72 | occurrences that do not overlap; runes plus one for an empty separator |
| Split.GenSplit | src/bytes/bytes.go:246-271 | at most n pieces between the occurrences; the preallocated slice is never overrun |
| Split.PieceCount | src/bytes/bytes.go:253-270 | one piece more than Count, or n if that is less |
| Split.PiecesContainNone | src/bytes/bytes.go:244-271 | no piece of a full split contains the separator |
| Split.JoinSplit | src/bytes/bytes.go:417-437 | Join undoes Split, for every limit on the number of pieces |
| Split.FlattenSplitAfter | src/bytes/bytes.go:246-271 | the pieces that keep their separators make up the text |
| Split.Explode | src/bytes/bytes.go:32-51 | at most n pieces of one rune, the rest in the last |
| Split.ExplodeGivesRunes | src/bytes/bytes.go:30-51 | without a limit every piece is one rune |
| Split.RuneSlicesCoverText | src/bytes/bytes.go:43-51 | the pieces of explode put together are the text: no byte is lost between runes |
| Split.RuneSlicesAreRunes | src/bytes/bytes.go:45-48 | each piece decodes to the rune of the text in its place, and takes all of its bytes |
| Split.Join | src/bytes/bytes.go:417-437 | the parts with separators between them; the buffer computed beforehand is filled exactly |
| Split.Replace | src/bytes/bytes.go:892-926 | the first n matches replaced, also for an empty pattern; the buffer computed beforehand is filled exactly |
| Split.ReplaceAllIsJoinSplit | src/bytes/bytes.go:928-932 | replacing all matches is joining the split text with the replacement |
| Split.ReplacedLength | src/bytes/bytes.go:907 | the length of the result is the length computed for the buffer |
| Split.ReplaceEmpty | src/bytes/bytes.go:907-919 | an empty pattern is replaced in front of each of the first runes and at the end, never inside a rune |
| Utf8.DecodeEncode | src/unicode/utf8/utf8.go:151-189 | decoding reads back every character that was encoded, whatever follows |
| Utf8.EncodeDecode | src/unicode/utf8/utf8.go:339-369 | a well-formed sequence is the only encoding of what it decodes to |
| Utf8.FullRuneIsFinal | src/unicode/utf8/utf8.go:102-121 | no further bytes change what a full rune decodes to |
| Utf8.PartialRuneCompletes | src/unicode/utf8/utf8.go:102-121 | bytes that are not a full rune can be completed to a character |
| Html.UnescapeEntity | src/html/escape.go:56-164 | in place, a reference is replaced by what the reference decoder gives for it, dst never passes src, and no byte still to be read changes |
| Html.ScanNumber | src/html/escape.go:82-105 | the number written by the digits, taken as a 32-bit integer, and the end of the reference |
| Html.UnescapeString | src/html/escape.go:187-214 | decoding in place equals the decoder that writes to a place of its own |
| Html.LongestName | src/html/escape.go:150-158 | without a full match the longest name that starts the text is taken |
| HtmlNames.KnownName | src/html/escape.go:137-140 | a name that the table has is replaced by its rune, and what follows is unescaped |
| HtmlNames.KnownName2 | src/html/escape.go:141-144 | or by its two runes |
| HtmlNames.LongestPrefix | src/html/escape.go:145-158 | a name that the table has not, but that begins with names it has: the longest of two to six bytes is replaced, and the rest of the name stays |
| HtmlNames.UnknownName | src/html/escape.go:160-163 | a name that neither is nor begins with one stays |
| HtmlNames.NoName | src/html/escape.go:134-136 | an ampersand without a name stays |
| HtmlNames.NotIt | src/html/escape.go:150-157 | "&notit;" is the sign of "not" and "it;" |
| Html.UnescapeEscape | src/html/escape.go:174-187 | UnescapeString(EscapeString(s)) == s for every byte string |
| Html.EscapedIsInert | src/html/escape.go:166-180 | no <, >, " or ' is left in escaped text |
| Html.NumericFollowsStandard | src/html/escape.go:68-121 | a numeric reference is decoded as the standard asks if and only if it is not one bare decimal digit, not "&#x;", and its number keeps its meaning in 32 bits |
| Html.BareDigitStays | src/html/escape.go:107-110 | the bytes of "&#1x" stay as they are, where the standard reads U+0001 |
| Html.EmptyHexBecomesError | src/html/escape.go:77-110 | the bytes of "&#x;" become U+FFFD, where the standard sees no reference |
| Html.LargeNumbers | src/html/escape.go:112-118 | exactly which numbers beyond U+10FFFF become U+FFFD |
| Html.LargeNumberWraps | src/html/escape.go:82-120 | the bytes of "&#4294967361;" become "A", where the standard has U+FFFD |
| PercentCoding.DecodeEncode | src/mime/mediatype.go:354-391 | percent decoding undoes percent encoding, for every byte string |
| PercentCoding.WriteEncoded | src/mime/mediatype.go:62-79 | the loop with its pending offset writes the encoded value |
| PercentCoding.PercentHexUnescape | src/mime/mediatype.go:354-391 | the decoded text or an error exactly if a percent sign lacks two digits; the buffer is filled exactly |
| PercentCoding.EncodeIsToken | src/mime/mediatype.go:65-69 | an encoded value has only token characters and no quote |
| EscapedTexts.PercentDecodes | src/mime/mediatype.go:354-391 | percent decoding takes digits in either case and leaves other bytes as they are |
| EscapedTexts.PercentFails | src/mime/mediatype.go:354-368 | it fails exactly if a percent sign is not followed by two hexadecimal digits |
| MimeGrammar.NeedsEncodingBytes | src/mime/encodedword.go:42-49 | looking at runes comes to the same as looking at bytes |
| MediaType.FormatMediaType | src/mime/mediatype.go:20-102 | the type and every parameter in its form, or the empty string exactly if type or names are no tokens |
| MediaType.ConsumeValue | src/mime/mediatype.go:287-324 | a token, or a quoted string with its escapes taken away, or nothing consumed |
| MediaType.ReadMediaParam | src/mime/mediatype.go:326-352 | name, value and rest of a parameter, or nothing consumed |
| MediaType.Stitch | src/mime/mediatype.go:200-234 | the value of a parameter from its single encoded piece or from pieces 0, 1, ... up to the first missing one; the loop over piece numbers ends |
| MediaType.StitchAll | src/mime/mediatype.go:196-235 | all stitched parameters, in whatever order the map is visited |
| MediaType.ParseMediaType | src/mime/mediatype.go:140-238 | the type with all parameters, or the error of the first thing that is wrong |
| MediaTypeLayout.LayoutDoesNotMatter | src/mime/mediatype.go:140-194 | white space around the parts, the case of type and names, and unneeded quotes or backslashes do not matter: the type and the names come back in lower case with their values |
| MediaTypeLayout.QuotedString | src/mime/mediatype.go:287-324 | a backslash escapes the special characters and stands for itself before any other byte |
| MediaTypeLayout.NoQuotedString | src/mime/mediatype.go:305-323 | a quoted string that does not end, or has a line end in it, is no value |
| MediaTypeLayout.SameNameTwice | src/mime/mediatype.go:188-191 | two names that differ at most in case are an error |
| MediaTypeLayout.TypeErrors | src/mime/mediatype.go:104-123 | the four errors of a type, each for every text of its shape |
| MediaTypeLayout.CharsetRead | src/mime/mediatype.go:240-261 | an encoded value is decoded if its charset is UTF-8 or US-ASCII in any case, whatever its language |
| MediaTypeLayout.CharsetNeeded | src/mime/mediatype.go:240-261 | and not without two apostrophes |
| MediaTypePieces.PiecesRoundTrip | src/mime/mediatype.go:196-235 | however a value is cut into pieces, each plain or percent-encoded under its number, and in whatever order they are written, parsing gives the value back; a piece that cannot be decoded adds nothing |
| MediaTypePieces.ParsePieces | src/mime/mediatype.go:140-238 | the same of ParseMediaType |
| MediaTypeRoundTrip.ParamConsumed | src/mime/mediatype.go:326-352 | one written parameter is read back, whichever of the three forms its value has |
| MediaTypeRoundTrip.UnquoteQuoted | src/mime/mediatype.go:287-324 | a quoted value is read back, whatever follows |
| MediaTypeRoundTrip.RoundTrip | src/mime/mediatype.go:20-238 | parsing what was formatted gives the type in lower case and exactly the parameters, with arbitrary byte values and in any order |
| MediaTypeRoundTrip.FormatThenParse | src/mime/mediatype.go:20-238 | the same for the two procedures one after the other |
| MediaTypeRoundTrip.TrailingSemicolonSkipsStitching | src/mime/mediatype.go:166-235 | for every text: a semicolon behind it changes the result if and only if the text parses and either ends in a semicolon already, perhaps with white space behind, which then is an invalid parameter, or has pieces from which stitching would add a value, which then is skipped |
| MediaTypeRoundTrip.SecondSemicolonFails | src/mime/mediatype.go:166-174 | "a;" parses without parameters, and "a;;" is an invalid parameter |
| MediaTypeRoundTrip.TrailingSemicolonLosesEncoded | src/mime/mediatype.go:166-174 | for formatted text with a semicolon at the end all is read back if and only if no value needed encoding |
| MediaTypeRoundTrip.PlainPieceIsLost | src/mime/mediatype.go:166-174 | "; t*0=a" gives a parameter and "; t*0=a;" none, with nothing percent-encoded |
| QEncoding.Encode | src/mime/encodedword.go:35-141 | text that needs no encoding is unchanged; otherwise encoded-words for consecutive chunks of the text |
| QEncoding.QEncodeUTF8 | src/mime/encodedword.go:114-141 | the splitting loop cuts the text at rune boundaries into chunks that fit |
| QEncoding.WordsAreShort | src/mime/encodedword.go:70-77 | every encoded-word is at most 75 bytes, section 2 of RFC 2047 |
| EscapedTexts.QTextIsSafe | src/mime/encodedword.go:144-157 | Q-encoded text has only printable ASCII without blanks and question marks |
| EscapedTexts.AlphanumericStays | src/mime/encodedword.go:144-157 | letters and digits are written as they are |
| QEncoding.WordsHoldWholeRunes | src/mime/encodedword.go:124-137 | no UTF-8 sequence is split between words, section 5 of RFC 2047: the runes of the words are the runes of the text |
| QDecoding.QDecodeText | src/mime/encodedword.go:372-398 | Q decoding, or an error exactly for what is no Q-encoded text |
| QDecoding.QDecodeQText | src/mime/encodedword.go:144-157 | Q decoding undoes Q encoding, for every byte string |
| EscapedTexts.QDecodes | src/mime/encodedword.go:372-398 | Q decoding takes digits in either case, an underscore for a space, and other printable bytes as they are |
| EscapedTexts.QFails | src/mime/encodedword.go:372-398 | it fails exactly if an equals sign is not followed by two hexadecimal digits or a byte is neither printable nor a blank or line end |
| EscapedTexts.Latin1IsBytes | src/mime/encodedword.go:329-332 | each byte of ISO-8859-1 content becomes the character of its number |
| EscapedTexts.AsciiIsBytes | src/mime/encodedword.go:333-340 | each byte of US-ASCII content stays, and U+FFFD stands for any other |
| QDecoding.DecodeHeader | src/mime/encodedword.go:240-312 | encoded-words replaced, blanks between them dropped, everything else kept; an error if and only if the conversion of one of the words fails |
| EncodedHeaders.HeaderMeans | src/mime/encodedword.go:240-312 | a header of texts and words in turn: every text and every word that cannot be decoded stays, the other words become their contents, and exactly the blanks between two of those are left out |
| EncodedHeaders.DecodeWritten | src/mime/encodedword.go:240-312 | the same of DecodeHeader |
| EncodedHeaders.NoWordNoChange | src/mime/encodedword.go:240-312 | a header in which no encoded-word can be decoded comes back unchanged |
| QDecoding.OnlyConversionFails | src/mime/encodedword.go:314-345 | a header whose words are in UTF-8, ISO-8859-1 or US-ASCII, or in charsets the reader converts, is always decoded |
| QDecoding.RoundTrip | src/mime/encodedword.go:240-312 | DecodeHeader gives back every text that was encoded as UTF-8 |
| QDecoding.EncodeThenDecode | src/mime/encodedword.go:35-312 | the same for the two procedures one after the other |
| RuneReader.RuneReader.ReadByte | src/fmt/scan.go:314-326 | the next byte, left-over ones first, in order |
| RuneReader.RuneReader.FillBuf | src/fmt/scan.go:348-358 | enough bytes for a full rune, or all that are left; if more than one was needed, nothing is left over |
| RuneReader.RuneReader.ReadRune | src/fmt/scan.go:330-367 | the next rune of the sequential decoding, at most three bytes left over and never out of order |
| RuneReader.RuneReader.UnreadRune | src/fmt/scan.go:369-376 | the previous rune goes back in front; refused exactly if there is none to give back, except on a new reader |
| RuneReader.UnreadFirst | src/fmt/scan.go:304-376 | on a new reader UnreadRune succeeds and the next rune is 0, whatever the stream |
| RuneReader.ReadUnreadRead | src/fmt/scan.go:328-376 | reading after unreading gives the same rune, and then the following ones; the same size if and only if the rune does not stand for a bad byte |
| RuneReader.ReadAll | src/fmt/scan.go:304-376 | successive calls yield the decoding of the whole stream with U+FFFD for each bad byte |
| Buffer.Buffer.TryGrowByReslice | src/bytes/buffer.go:106-112 | room behind the unread bytes exactly if the capacity has it |
| Buffer.Buffer.GrowBy | src/bytes/buffer.go:117-150 | every path keeps the unread bytes and returns the index behind them; it is refused exactly if there is no room and the larger size exceeds an int |
| Buffer.Buffer.Grow | src/bytes/buffer.go:157-163 | the contents stay, and n more bytes fit; refused exactly as growing is |
| Buffer.Buffer.Write | src/bytes/buffer.go:168-187 | the bytes are appended to the queue, unless growing for them is refused |
| Buffer.Buffer.ReadFrom | src/bytes/buffer.go:199-218 | all bytes up to the first error of the reader are appended, EOF is no error; it stops before that only if no room for MinRead bytes can be had |
| Buffer.Buffer.Read | src/bytes/buffer.go:296-312 | bytes come out in the order they went in; EOF exactly if there are none and some were asked for |
| Buffer.Buffer.ReadRune | src/bytes/buffer.go:351-367 | the rune at the front of the queue is taken off |
| Buffer.Buffer.ReadBytes | src/bytes/buffer.go:408-428 | through the first delimiter, or everything |
| Buffer.Buffer.Truncate | src/bytes/buffer.go:82-92 | the first n unread bytes stay, or the call is refused |
| Buffer.ReadByteThenUnread | src/bytes/buffer.go:334-400 | a byte read and unread restores the queue |
| Buffer.ReadRuneThenUnread | src/bytes/buffer.go:351-383 | a rune read and unread restores the queue |
| Buffer.ReadThenUnread | src/bytes/buffer.go:296-400 | after a Read of some bytes the last of them is given back |
| Buffer.ReadBytesThenUnread | src/bytes/buffer.go:387-428 | after a ReadBytes UnreadByte does what its documentation says if and only if the delimiter was there |
| Buffer.EmptyReadBytesThenUnread | src/bytes/buffer.go:387-428 | after a ReadBytes on an empty buffer UnreadByte succeeds, and unreads a byte that was read before |
| Buffer.Run | src/bytes/buffer.go:79-428 | any run of the modelled calls, writes, ReadFrom, Grow, reads, Truncate and Reset, gives the replies of a plain queue of bytes, whatever the array and however it grew; all calls are made unless one needs a size beyond an int |
| FormatInteger.Formatter.FmtInteger | src/fmt/format.go:194-321 | every store lands in the 68-byte or 3+wid+prec buffer for all 64-bit values, bases, flags, widths and precisions, left-over ones included; what is appended is sign, prefix, zeros and numeral in its width |
| FormatInteger.TextFits | src/fmt/format.go:200-210 | the longest possible text fits that buffer |
| FormatInteger.TextMeansValue | src/fmt/format.go:233-313 | the digits printed evaluate in the base to the magnitude, the sign printed is the sign of the value, and there are as many digits as the precision asks for |
| FormatInteger.ValueOfNumeral | src/fmt/format.go:236-269 | a numeral evaluates to its number |
| FormatInteger.WriteNumeral | src/fmt/format.go:236-269 | the loops of the four bases write the numeral without leading zeros |
| FormatInteger.Formatter.WritePadding | src/fmt/format.go:64-87 | n bytes of padding behind the contents, which a larger array keeps |
| FormatInteger.ParseNum | src/fmt/print.go:306-318 | a width or precision read from a format is its decimal value, never negative and bounded, so that 3+wid+prec is a length |
| FormatInteger.FmtVerb | src/fmt/print.go:370-388 | verb O is only used with base 8, and %#v of an unsigned value is hexadecimal |
| FormatLayout.VerbLayout | src/fmt/format.go:194-321 | verb by verb: the sign, the prefix, the digits of the base with exactly as many leading zeros as precision or width ask for, and spaces up to the width on the left, or on the right with a minus flag |
| FormatLayout.NothingPrinted | src/fmt/format.go:219-226 | zero with precision zero prints only the width in spaces |

## Left out

- Fma.FMA: x or y zero or not finite, and z zero, are not covered: there the code multiplies and adds in hardware floating point.
- BufioReader.Reader.ReadBytes: the contract excludes an underlying reader that itself returns ErrBufferFull, for which the code reads on.
- RuneReader.RuneReader.ReadRune: the runes are specified for streams that end in EOF; another error in the middle of a rune loses its bytes, as in the code.
- BufioReader.Reader.UnreadByte: restoring what was read is stated right after a read; a Discard in between is not covered.
- Buffer.ReadByteThenUnread, Buffer.ReadRuneThenUnread: a Grow in between is not covered.
- Buffer.Run: UnreadByte and UnreadRune are not among the calls; they are stated right after the reads.
- MediaType.ParseMediaType: package strings is modelled on ASCII: lower case and white space beyond ASCII are not.
- MediaType.FormatMediaType: sort.Strings is replaced by an arbitrary order of the names, and the result is proved for each.
- QDecoding.DecodeHeader: base64 and CharsetReader are parameters.
- QEncoding.Encode: the base64 encoder is not modelled.
- Html.UnescapeString: the table of src/html/entity.go is a parameter that satisfies `Html.WellFormed`; its two thousand entries are not listed.
- Search.Index: bytealg.Index and bytealg.IndexByte are defined as the first index, and the architecture's limits are parameters.
- Buffer.Buffer.GrowBy: a failing allocation is not modelled, only the refusal of a size beyond an int; panics are results.
- Scanner.Scanner.Scan: split functions other than ScanLines are not modelled.
- ContextSteps.StepKeepsInv: custom Context implementations, WithValue and the goroutine that watches a foreign parent are not modelled.
- DialSerial.DialAll: the outcome of dialling one address is chosen by the environment.
- FormatInteger.Formatter.Write: the growth policy of append is not Go's.
- bufio.Reader's Peek, Discard, Read, ReadRune, ReadLine and WriteTo, bufio.Writer's WriteRune and the ReaderFrom and WriterTo shortcuts: easy members or delegation.
- bytes.Buffer's WriteTo, and printing through reflection, floats, strings and Unicode verbs in package fmt.
- Race conditions below the level of a critical section, memory models and real time.
