# AsyncIOManager: a verified model

This project models the two hard parts of the AsyncIOManager repository and proves what they are
for.

1. **The HTTP engine of the vendored `include/httplib.h`**: the incremental multipart/form-data
   parser with its in-place buffer, chunked transfer coding over a buffered socket and a two-tier
   line buffer, the thread pool, the client's request-in-flight protocol and its recursion through
   redirects and authentication, range headers and multipart range responses, base64, query
   strings, and route patterns.
2. **The repository's own completion protocols** in `src/`: the SFTP upload state machine, the
   fan-in counters of the SFTP and local savers, the file manager's count of outstanding
   operations, and the URL parsers between them.

Conventions:

- A loop, a buffer or an object that the source updates is a `method` or a `class`, proved equal
  to a function on values; the properties are lemmas about those functions.
- A concurrent protocol is a state machine (`State`, moves, `Next`) whose runs are all
  interleavings of its critical sections and handlers; a class beside it carries the source's
  fields, and each of its methods is proved to make the machine's step.
- Network, disk, libssh2, timers, the user's callbacks and the scheduler are the environment.
  They may do anything their interface allows: partial reads and writes, errors, would-block,
  spurious wake-ups. A method that models them chooses with `*` or `:|`.
- Byte strings are `string`, with values up to 255 where percent coding needs it; `npos` is the
  length of the text searched. The widths of `size_t`, `ssize_t`, `int` and `unsigned long` are
  written out where a value can wrap or saturate.

Files: `Text` (searching, trimming, splitting), `Base64`, `Query`, `QueryForms`, `MultipartSpec`,
`MultipartParser`, `MultipartRoundTrip`, `MultipartCut`, `MultipartNames`, `MultipartRefusals`, `ReadStack`,
`Chunked`, `ChunkedGrammar`, `ChunkedReader`, `ChunkedWriter`, `ThreadPool`, `ClientSocket`, `Redirects`,
`RangeHeader`, `RangesData`, `RangesReadBack`, `PathParams`,
`SftpUpload`, `SftpSaver`, `MnnSaver`, `FileManager`, `ManagedSaves`, `SftpUrl`, and the small shared modules
`Counting` and `Wrappers`.

## What the code does not do

Each of these is a property one would expect of the code. It is false, is kept as the code has
it, and is stated with the exact condition under which the code does meet it, and where that helps
with a run in which it does not.

- A multipart message whose opening boundary line is cut across chunks is accepted without an error
  and is not delivered as it was sent. `MultipartCut.RoundTripIff` is the exact condition, over all
  items and all cuttings: the items come back, and the parser is valid, if and only if there are any
  and that line is in one chunk. What comes back instead starts at the first place where a chunk
  holds the bytes of a boundary line, which may be a later boundary, a piece of content, or the end
  of a Content-Type line.
- Two bytes behind a multipart boundary that are neither a line break nor `--` are not refused. The
  parser then accepts and keeps whatever follows, and delivers nothing more
  (`MultipartRefusals.StrayBytesStall`).
- A chunked body whose provider stops a turn with an empty write, or is cut short by the server's
  shutdown, carries no terminator although the writer reports success
  (`ChunkedWriter.ReadableIffNotStopped`, `ChunkedWriter.ReadableIffNoEmptyPiece`: readable if and only
  if neither happens).
- A `stop` during a request closes the socket at the end of an attempt if and only if no attempt has
  begun in between, as one does for a redirect or a retry (`ClientSocket.StopIsRemembered`,
  `ClientSocket.StopClosesAtEnd`; `ClientSocket.NestedSendForgetsStop` gives such a run from every state
  with a request in flight).
- `PathParamsMatcher` means to refuse a pattern that repeats a parameter name, but never records
  the names it has seen, so such a pattern is accepted (`PathParams.RepeatedNameIsAccepted`). A route
  keeps all values of a path if and only if equal names have captured equal values
  (`PathParams.ValuesKeptIff`), and of all paths if and only if its names are distinct
  (`PathParams.KeptForAllPathsIff`).
- A multi-range response from an in-memory body computes its parts with a content length of zero,
  so suffix ranges and "everything" come out empty (`RangesData.InMemoryParts`). Ranges
  beyond the content are not clamped (`RangesData.OffsetsSelect`).
- The Content-Length a multi-range response announces is not always what it sends: the results of the
  writes of boundaries and header lines are not looked at, and a shutdown in the middle of a part
  counts as success. A response that reports success has sent what it announced if and only if no
  such write dropped a byte and no shutdown was noticed (`RangesData.RespondWithRanges`).
- A load whose loader or chained saver throws keeps the event loop from ever being stopped again
  (`FileManager.LeakPreventsStop`). The event loop is stopped if and only if the count falls to zero,
  which without such a leak is when the last operation ends (`FileManager.StopsAtZero`).
- `MNNSaver` given contents but no paths never calls back (`MnnSaver.NoPathsNoCompletion`), so the
  operation stays outstanding (`ManagedSaves.SavesEnd`: of the operations whose saver has come to rest,
  exactly those, and loads whose chained saver threw). It can report completion while
  writes are still running if and only if the open of some file after the first fails
  (`MnnSaver.EarlyCompletionIff`).
- An SFTP upload frees its session if and only if it had opened its file (`SftpUpload.UploadIsSafe`).

## Model

| member | source | states |
|---|---|---|
| Text.Find | include/httplib.h:4465-4486 | the first occurrence at or after a position, and none before it |
| Text.TrimRange | include/httplib.h:2448-2458 | the range scan of `trim` finds exactly the text without outer blanks, although its bounds run over the whole text |
| Text.TrimmedPiece | include/httplib.h:2480-2481 | the callback is made with the trimmed piece, and not at all for an empty one |
| Text.SplitScan | include/httplib.h:2473-2491 | one pass calls back exactly the non-empty trimmed pieces between delimiters, in order |
| Text.TrimMeans | include/httplib.h:2446-2464 | trimming takes blanks and tabs off both ends, nothing else, and leaves none there |
| Base64.RoundTrip | include/httplib.h:2261-2289 | section 4 of RFC 4648: a decoder recovers every input; the encoded length is 4*ceil(n/3) |
| Base64.OnlyLowBits | include/httplib.h:2266-2281 | only the accumulator modulo 4096 reaches the output |
| Base64.PrintsUnwrapped | include/httplib.h:2266-2281 | a 32-bit accumulator that has wrapped prints the same digits as an unbounded one |
| Base64.Push | include/httplib.h:2269-2276 | one byte shifted in prints one digit, or two when it completes a group, and never the wrong one |
| Base64.PadToFour | include/httplib.h:2284-2286 | the padding loop adds exactly the missing `=` |
| Base64.CloseGroup | include/httplib.h:2282-2286 | left-over digit and padding complete the last group, for each of the three lengths |
| Base64.Base64Encode | include/httplib.h:2261-2289 | the shift-accumulator loop computes three-byte grouping for every input |
| Query.FromHexToI | include/httplib.h:2202-2217 | the digit loop yields the hexadecimal number, or fails when a digit is missing |
| Query.EncodeQueryParam | include/httplib.h:2342-2361 | the output is the character-wise encoding of the value |
| Query.DecodeUrl | include/httplib.h:2395-2430 | the scan with jumps of 6, 3 or 1 decodes `%uXXXX`, `%XX`, `+`, and leaves malformed escapes |
| Query.DecodeEncoded | include/httplib.h:2342-2430 | decoding undoes encoding on every byte string, in both modes |
| Query.EncodedIsPlain | include/httplib.h:2342-2361 | nothing the encoder writes is a delimiter or a blank |
| Query.DecodePlain | include/httplib.h:2395-2430 | text without escapes decodes to itself |
| Query.ParamsToQueryStr | include/httplib.h:4164-4174 | the loop joins `key=encoded value` with `&` |
| Query.ParseField | include/httplib.h:4183-4191 | first non-empty piece is the key, the last later one the value |
| Query.ParseQueryText | include/httplib.h:4176-4197 | the fields in order, each distinct field text once |
| Query.FieldInjective | include/httplib.h:4167-4171 | different pairs print differently, so skipping repeated texts skips only repeated pairs |
| Query.SplitQuery | include/httplib.h:4178-4178 | splitting a printed query yields the printed fields: encoded text contains nothing that `split` or `trim` touches |
| Query.QueryRoundTrip | include/httplib.h:4164-4197 | parsing a printed query gives the pairs in order, repeated ones once |
| Query.QueryIdentity | include/httplib.h:4164-4197 | parsing undoes printing exactly for parameters without a repeated pair |
| QueryForms.TokensAreDecoded | include/httplib.h:2395-2430 | any text, taken as characters, `%XX`, `%uXXXX` and bare percent signs, decodes to what those mean, a plus sign to a blank exactly if asked |
| QueryForms.EveryTextIsTokens | include/httplib.h:2395-2430 | every text can be taken apart so: the decoder is characterised on all inputs |
| QueryForms.Utf8IsRead | include/httplib.h:2229-2258 | `to_utf8` writes the shortest UTF-8 form of every unit (section 3 of RFC 3629), as an independent strict reader finds, and nothing for a surrogate |
| QueryForms.EncodedAsItIs | include/httplib.h:2345-2352 | a value is printed unchanged exactly if it holds only letters, digits and the marks of `encodeURIComponent` |
| QueryForms.EscapesAreUpper | include/httplib.h:2353-2357 | every other byte gets an escape with two upper-case digits |
| QueryForms.FormFieldIsRead | include/httplib.h:4176-4197 | a form-encoded field, blanks as plus signs, is read back, whatever bytes key and value hold |
| QueryForms.LaterPieceCounts | include/httplib.h:4183-4190 | in a field with several `=` a later non-empty piece replaces the value and never the key |
| MultipartSpec.Serialize | include/httplib.h:4587-4600 | the loop produces the entries, each behind its boundary, and the closing boundary |
| MultipartSpec.Step | include/httplib.h:4293-4414 | every turn of the parser either stops or uses up its measure: the loop ends |
| MultipartParser.MultipartFormDataParser.constructor | include/httplib.h:4276-4284 | a new parser is in the start state with an empty buffer |
| MultipartParser.MultipartFormDataParser.BufFind | include/httplib.h:4465-4486 | scan for the first character, then compare: first-occurrence search in the held bytes |
| MultipartParser.MultipartFormDataParser.ShiftToFront | include/httplib.h:4489-4494 | the in-place shift keeps the held bytes |
| MultipartParser.MultipartFormDataParser.BufAppend | include/httplib.h:4488-4504 | append on the plain sequence of held bytes, despite shift and resize |
| MultipartParser.MultipartFormDataParser.BufErase | include/httplib.h:4506-4506 | drop on the plain sequence |
| MultipartParser.MultipartFormDataParser.BufStartWith | include/httplib.h:4461-4463 | prefix test on the held bytes |
| MultipartParser.MultipartFormDataParser.BufHead | include/httplib.h:4459-4459 | a prefix of the held bytes |
| MultipartParser.ParseDispositionParams | include/httplib.h:4210-4232 | the parameters of a disposition, each distinct field once, unquoted |
| MultipartParser.ReadHeader | include/httplib.h:4325-4366 | one header line changes the file as the specification says, or is refused; what that means for each form of line is LineIsRead, ExtendedNameIsRead and OthersAreRefused |
| MultipartParser.MultipartFormDataParser.TurnOpening | include/httplib.h:4295-4302 | the opening state on the array buffer is the value step |
| MultipartParser.MultipartFormDataParser.TurnEntry | include/httplib.h:4303-4307 | a new entry forgets the file of the last one |
| MultipartParser.MultipartFormDataParser.BlankLine | include/httplib.h:4312-4321 | the blank line announces the entry, as in the value step |
| MultipartParser.MultipartFormDataParser.OneLine | include/httplib.h:4323-4368 | a whole header line is taken off and read, or the parse ends, as in the value step |
| MultipartParser.MultipartFormDataParser.TurnHeaders | include/httplib.h:4308-4372 | the header loop on the array buffer is the value step |
| MultipartParser.MultipartFormDataParser.Deliver | include/httplib.h:4376-4391 | content is handed out and dropped from the buffer, or refused and kept |
| MultipartParser.MultipartFormDataParser.TurnBody | include/httplib.h:4373-4395 | the body state on the array buffer is the value step |
| MultipartParser.MultipartFormDataParser.TurnBoundary | include/httplib.h:4396-4413 | the boundary state on the array buffer is the value step |
| MultipartParser.MultipartFormDataParser.Turn | include/httplib.h:4293-4415 | whichever the state, one turn of the loop is the value step |
| MultipartParser.MultipartFormDataParser.Parse | include/httplib.h:4288-4418 | feeding a chunk to the object gives the result, calls and state of the value parser |
| MultipartRoundTrip.SerializedEntry | include/httplib.h:4557-4600 | the serialized form is the opening boundary followed by entries that each end in the next delimiter |
| MultipartRoundTrip.ParamsOfDisposition | include/httplib.h:4210-4232 | a serialized disposition gives back name and filename |
| MultipartRoundTrip.RestOfDisposition | include/httplib.h:4331-4333 | the disposition line is recognised and its parameters isolated |
| MultipartRoundTrip.LineIsRead | include/httplib.h:4325-4366 | each serialized header line sets exactly its field of the item |
| MultipartRoundTrip.FromBody | include/httplib.h:4373-4395 | from any place in an entry's body, one turn on what has arrived moves on without losing, adding or reordering content |
| MultipartRoundTrip.RunMoves | include/httplib.h:4288-4418 | one chunk moves the parser from one place in the message to a later one, and with nothing left to the end |
| MultipartRoundTrip.ParseAllMoves | include/httplib.h:4288-4418 | the same over all chunks of the message |
| MultipartRoundTrip.RoundTrip | include/httplib.h:4276-4600 | section 4 of RFC 7578, section 5.1.1 of RFC 2046: at least one item, cut into any chunks that keep the opening boundary line whole, comes back exactly, in order, and the parser is valid |
| MultipartRoundTrip.CutOpeningIsLost | include/httplib.h:4295-4297 | before the opening line, a chunk that does not hold all of it is as if it had not been received |
| MultipartRoundTrip.PreambleIsSkipped | include/httplib.h:4295-4300 | what stands before the opening line in its chunk changes nothing |
| MultipartRoundTrip.WithoutOpeningNothing | include/httplib.h:4295-4297 | if no chunk holds the whole line, any message is accepted and nothing delivered |
| MultipartRoundTrip.FirstWholeOpening | include/httplib.h:4276-4600 | if the first whole boundary line in a chunk is the one before item i, exactly the items from i on are delivered |
| MultipartCut.LateDelimiter | include/httplib.h:4373-4381 | behind a delimiter that was sent, none starts before the blank line of the next item, and after the last item there is none |
| MultipartCut.LateOpening | include/httplib.h:4295-4300 | an opening line found after the start of the message stands no earlier than the first content, or at the end of the first Content-Type line |
| MultipartCut.RunStaysLost | include/httplib.h:4293-4415 | a parse that has started late stays behind the items that were sent, whatever it takes for headers and delimiters |
| MultipartCut.LostIsNotAll | include/httplib.h:4276-4511 | and at the end of the message it has not delivered them |
| MultipartCut.ValidHasItem | include/httplib.h:4402-4406 | over any text and chunks, a valid parser has delivered an item |
| MultipartCut.RoundTripIff | include/httplib.h:4276-4600 | for every list of items that may be sent and every cutting: delivered exactly as sent and valid, if and only if there are items and the opening boundary line is in one chunk |
| MultipartNames.ExtendedNameIsRead | include/httplib.h:4348-4361 | section 5 of RFC 5987: a `filename*` behind a disposition, with or without a plain file name, gives the decoded name exactly if it declares UTF-8, in any case, and is not empty; otherwise the line is refused |
| MultipartNames.EncodedNameArrives | include/httplib.h:4348-4361 | every non-empty file name of bytes, percent-encoded there, arrives as it was |
| MultipartNames.EncodedNameIsAnnounced | include/httplib.h:4309-4370 | and the entry is announced to the receiver with it |
| MultipartNames.OthersAreRefused | include/httplib.h:4337-4366 | a disposition without a field name, and a line that is neither disposition nor content type, are refused and change nothing |
| MultipartRefusals.NothingAfterRefusal | include/httplib.h:4288-4418 | over any text, chunks and receiver: every call was accepted, except that the last may have been refused, and then the parse has failed and the parser is not valid |
| MultipartRefusals.LongLineIsRefused | include/httplib.h:4309-4310 | a first header line without an end among the first 8192 bytes is refused, and nothing is called |
| MultipartRefusals.StrayBytesStall | include/httplib.h:4396-4413 | two bytes behind a boundary that are neither a line break nor `--` are never refused: all that follows is kept, and nothing is called, however it is cut |
| MultipartRoundTrip.FindInHeld | include/httplib.h:4375-4390 | a delimiter in all bytes received starts at the same place as in the bytes held plus the new chunk |
| MultipartRoundTrip.BodyChunks | include/httplib.h:4373-4395 | over any chunks without the delimiter: emitted ++ held == received, and exactly one delimiter length is held back once that much has come |
| MultipartRoundTrip.BodyChunk | include/httplib.h:4373-4395 | when the delimiter comes, emission ends at its first occurrence in everything received and the bytes after it are kept |
| ReadStack.SocketStream.ReadAhead | include/httplib.h:5326-5340 | bytes already buffered are served without loss |
| ReadStack.SocketStream.ReadThrough | include/httplib.h:5340-5360 | a small read through the buffer keeps what it does not deliver |
| ReadStack.SocketStream.Read | include/httplib.h:5316-5360 | delivered ++ buffered ++ unread is what it was; zero means the end |
| ReadStack.SocketStream.Reads | include/httplib.h:5316-5360 | the same over any sequence of read sizes, partial socket reads and failed reads |
| ReadStack.StreamLineReader.Append | include/httplib.h:2545-2556 | appending a byte across both buffers appends it to the line |
| ReadStack.StreamLineReader.ReadByte | include/httplib.h:2523-2525 | one byte off the front of what is pending, the line so far untouched |
| ReadStack.StreamLineReader.GetLine | include/httplib.h:2519-2543 | exactly the bytes up to and including the next LF, whichever buffer holds them |
| Chunked.FromIToHex | include/httplib.h:2219-2227 | the digit loop prints the number in hexadecimal |
| Chunked.SizeRoundTrip | include/httplib.h:2219-2227 | the base-16 reader inverts the printed chunk size, whatever follows it |
| Chunked.NumberIsRead | include/httplib.h:3795-3799 | a size line may have white space, a sign and `0x` before its digits and anything behind them; too large a number saturates, a minus negates modulo 2^64 |
| Chunked.NoNumberIsRefused | include/httplib.h:3797-3797 | a size line without a digit there is refused |
| Chunked.OversizedIsRefused | include/httplib.h:3798-3798 | a printed size of `ULONG_MAX` or more is refused, whatever follows |
| Chunked.FieldIsRead | include/httplib.h:3656-3690 | a printed trailer field is read back, percent-decoded unless it is a location |
| Chunked.HeaderIs | include/httplib.h:3656-3690 | a header line is its key up to the first colon and its value without the blanks around it; without a colon or a value it is no header |
| Chunked.EncodedIsReceived | include/httplib.h:3680-3682 | a percent-encoded value arrives decoded, a location exactly as it was sent |
| Chunked.TrailerRoundTrip | include/httplib.h:3815-3831 | printed trailer lines are read back in order, up to their end |
| Chunked.RoundTrip | include/httplib.h:3781-4104 | section 7.1 of RFC 9112: the encoded pieces and trailers decode to their concatenation and fields, with exactly the following bytes left |
| Chunked.PlainTrailersKept | include/httplib.h:3680-3682 | trailers without percent signs arrive unchanged |
| ChunkedGrammar.CodedIsRead | include/httplib.h:3781-3834 | every text of the grammar - size lines with their data, a zero line, trailer lines below the limit - is read as its data and its headers |
| ChunkedGrammar.ReadIsCoded | include/httplib.h:3781-3834 | whatever is read is such a text |
| ChunkedGrammar.AcceptedIff | include/httplib.h:3781-3834 | so the reader accepts exactly the texts of the grammar, and takes nothing behind them |
| ChunkedReader.ReadContentWithLength | include/httplib.h:3729-3749 | exactly that many bytes, however the stream splits them, or failure |
| ChunkedReader.ReadTrailerLines | include/httplib.h:3815-3831 | the trailer loop agrees with the specification of trailers |
| ChunkedReader.ReadChunk | include/httplib.h:3797-3811 | one turn takes exactly the chunk, its line break and the next size line |
| ChunkedReader.ReadChunks | include/httplib.h:3791-3811 | the loop takes all chunks up to the size line that says zero |
| ChunkedReader.ReadContentChunked | include/httplib.h:3781-3834 | succeeds exactly on chunked messages, with their content and trailers, leaving exactly the bytes after them |
| ChunkedReader.ReceiveEncoded | include/httplib.h:3781-3834 | encoded bytes arriving in any portions come out as the pieces and trailers |
| ChunkedWriter.WriteData | include/httplib.h:3933-3941 | the loop over partial writes writes all the data or fails |
| ChunkedWriter.DataSink.Write | include/httplib.h:4034-4055 | a write puts one chunk on the stream; an empty one ends the data without a terminator |
| ChunkedWriter.DataSink.DoneWithTrailer | include/httplib.h:4057-4104 | the end puts the last chunk, the trailers and the final line break on the stream |
| ChunkedWriter.CallProvider | include/httplib.h:4112-4123 | one call of the provider puts the bytes of its sink calls on the stream |
| ChunkedWriter.WriteContentChunked | include/httplib.h:4024-4127 | the stream receives exactly the bytes of the calls the writer lets the provider make |
| ChunkedWriter.VerdictMeans | include/httplib.h:4112-4127 | for any provider: the calls of its first turns are taken and none after them; every turn but the last went on and ended with a non-empty write; the verdict is Canceled exactly if the provider gave up in the last |
| ChunkedWriter.UnterminatedIsRejected | include/httplib.h:4035-4035 | chunks without the terminator are not a message |
| ChunkedWriter.ReadableIffDone | include/httplib.h:4034-4104 | the bytes of performed calls are a readable message exactly when the last one reports the end |
| ChunkedWriter.PiecesThenDone | include/httplib.h:4112-4123 | non-empty pieces and then the end are all performed, with success |
| ChunkedWriter.ScriptPerforms | include/httplib.h:4034-4123 | of a provider's turns everything is performed, or the calls up to the first turn that ends with an empty write, or up to the shutdown; always with success |
| ChunkedWriter.ReadableIffNotStopped | include/httplib.h:4024-4127 | a provider that writes batches and then reports the end sends a readable message, with exactly its pieces and trailers, if and only if no shutdown comes first and no earlier batch ends with an empty write |
| ChunkedWriter.ReadableIffNoEmptyPiece | include/httplib.h:4035-4035 | one piece a turn: if and only if no piece is empty and no shutdown comes first |
| ThreadPool.KeepsExactlyOnce | include/httplib.h:602-661 | every step keeps each job queued, running or done exactly once, started in FIFO order |
| ThreadPool.KeepsNoLostWakeup | include/httplib.h:602-661 | every step keeps: while a worker sleeps, every queued job has a wake-up coming |
| ThreadPool.KeepsShutdownSeen | include/httplib.h:611-649 | every step keeps: after the shutdown's notification nobody sleeps, and nobody leaves before the jobs of that time have started |
| ThreadPool.History | include/httplib.h:602-661 | what the machine records is what the run asked for: its enqueued jobs in order, whether and after how many of them the shutdown came; no worker appears, vanishes or comes back |
| ThreadPool.SleepsUntilWoken | include/httplib.h:633-636 | a sleeping worker wakes by its notification, by the one to all, or spuriously, and by nothing else |
| ThreadPool.ReachableFromStart | include/httplib.h:590-661 | all three over every interleaving of enqueue, notify, wait, run, spurious wake-up and shutdown, with as many workers as the pool was made with, and jobs started in the order in which they were asked for |
| ThreadPool.InternalStepsRunOut | include/httplib.h:627-649 | the pool's own steps use up work |
| ThreadPool.InternalRunsEnd | include/httplib.h:627-649 | a run without new requests is no longer than the work at its start |
| ThreadPool.RestIsComplete | include/httplib.h:627-649 | at rest nothing is queued and every job has run; after a shutdown every worker has left |
| ThreadPool.JoinedMeansDone | include/httplib.h:611-624 | when all workers have been joined, every job enqueued before the shutdown has run |
| ThreadPool.AllJobsRun | include/httplib.h:590-661 | every run of a new pool of at least one worker that has come to rest: without a shutdown exactly the jobs asked for have run and all workers sleep; after one all have left, every job asked for before it has run, and none that was not asked for |
| ThreadPool.JoinedJobsRun | include/httplib.h:611-624 | every run of a new pool at whose end `shutdown` has joined all workers: the jobs asked for before the shutdown have run |
| ThreadPool.Pool.Enqueue | include/httplib.h:602-609 | the critical section is the machine's step |
| ThreadPool.Pool.BeginShutdown | include/httplib.h:611-618 | setting the flag is the machine's step |
| ThreadPool.Pool.WorkerTurn | include/httplib.h:633-645 | sleep, leave, or take the oldest job, as the machine's step |
| ClientSocket.StepKeepsInv | include/httplib.h:6766-6863 | every step of every thread keeps the protocol's invariant |
| ClientSocket.AssertsHold | include/httplib.h:6698-6728 | no assertion of the source fails in a state of the invariant |
| ClientSocket.CountIsLiveFrames | include/httplib.h:6766-6863 | over every run: the counter is the number of live `send_` frames, all of one recorded thread, and the next step trips no assertion |
| ClientSocket.WhenOpen | include/httplib.h:6777-6852 | over every run, step by step: a live socket is used again and a missing one is there exactly if connecting works; a stop closes at once exactly if no thread has a request in flight, and is noted exactly if one has; the end of an attempt leaves it open exactly if nothing asks for closing |
| ClientSocket.AttemptsLead | include/httplib.h:6766-6774 | over every run: an attempt with a socket is under way on top of its `send`; without one, or at its end, the second attempt follows exactly the first one after which the peer had closed |
| ClientSocket.SendsAreNested | include/httplib.h:6766-6774 | over every run a thread's stack holds the calls of `send` it has entered and not left |
| ClientSocket.SendsEnd | include/httplib.h:6766-6863 | the length of every run is bounded by the number of calls of `send`, stops and closes: each call takes at most seven steps |
| ClientSocket.NeverStuck | include/httplib.h:6766-6863 | and while some thread is inside `send`, one of them can go on: the recursive request mutex never deadlocks |
| ClientSocket.StopIsRemembered | include/httplib.h:7861-7882 | over any run without a further stop: the flag is set at its end if and only if it was set before and no attempt has begun since |
| ClientSocket.StopClosesAtEnd | include/httplib.h:6838-6852 | after a stop in a request, the end of an attempt leaves the socket open if and only if an attempt has begun since, the run left it open, and this attempt succeeds and does not close it |
| ClientSocket.NestedSendForgetsStop | include/httplib.h:6777-6782 | such a run exists from every state with a request in flight: a nested attempt that connects and succeeds |
| ClientSocket.ClientImpl.SendBegin | include/httplib.h:6777-6827 | the first critical section of `send_`, with its assertions |
| ClientSocket.ClientImpl.CloseSocket | include/httplib.h:6698-6728 | closes the socket, after its ownership assertion |
| ClientSocket.ClientImpl.SendEnd | include/httplib.h:6838-6852 | the scope exit of `send_`, with its assertions |
| ClientSocket.ClientImpl.CloseInRequest | include/httplib.h:6899-6914 | the close inside a request, with its assertions |
| ClientSocket.ClientImpl.Stop | include/httplib.h:7861-7882 | `stop`, with its assertions |
| Redirects.Send | include/httplib.h:6766-6774 | against any server: a success comes with the answer to the last request on the wire, and the peer-closed error is set exactly if that request was answered by closing the connection; nesting at most the budget, boundedly many requests, each with the method and body it was asked to send or a bodiless GET; a set error always means failure, as `send` asserts |
| Redirects.Again | include/httplib.h:6769-6772 | the second attempt sends the request the first one left |
| Redirects.Attempt | include/httplib.h:6878-6951 | one attempt first sends the request it was given, reports the last answer, and keeps to the budget with all that follows |
| Redirects.Redirect | include/httplib.h:4138-4162 | the next request on the wire goes to the target with one redirect less, a GET without body after a 303 to another method; a failed redirect leaves request and answer alone |
| Redirects.Authorize | include/httplib.h:6923-6948 | if the answer asks for credentials that are there and an attempt is left, the request left by the redirect goes out with one more credential, and a success comes with the answer to the last request then sent; otherwise nothing happens; the caller's request stays as it is |
| Redirects.SecondRequest | include/httplib.h:6878-7008 | against any server, which second request is sent and when: the same after a closed connection, the target's after a redirect to be followed, one with a credential more after a challenge that can be answered; otherwise one request is all, a success exactly if it was answered and no redirect had to be followed |
| Redirects.DepthIsBounded | include/httplib.h:504-508 | a fresh request nests at most 20 + 5 sends, against any server, and no request on the wire has another method and body than the first, unless it is a bodiless GET |
| Redirects.DepthIsReached | include/httplib.h:6953-7008 | a server exists that reaches the bound exactly, from any request |
| Redirects.EndlessRedirects | include/httplib.h:6953-6957 | an endless redirect gets one request per allowed redirect and one more, then fails |
| RangeHeader.DecimalIsRead | include/httplib.h:5100-5104 | decimal reading inverts decimal printing |
| RangeHeader.MakeRangeHeader | include/httplib.h:5096-5108 | the loop joins the printed ranges with `, ` |
| RangeHeader.ParseRangeHeader | include/httplib.h:4234-4274 | the pieces are read in order up to the first bad one; an out-of-range number ends it like a wrong order |
| RangeHeader.SpecIsRead | include/httplib.h:4249-4266 | a printed range is recognised exactly when no bound is below -1, and then read back or refused for its order |
| RangeHeader.RoundTrip | include/httplib.h:4234-4274 | section 14.1.2 of RFC 9110, for every list of `ssize_t` pairs: the parser accepts a printed list exactly if it is not empty, has no bound below -1 and ordered pairs, and then reads back the same list |
| RangeHeader.AcceptedIsWritable | include/httplib.h:4234-4274 | whatever header is accepted, printing its ranges gives a header with the same meaning |
| RangesData.OffsetsSelect | include/httplib.h:4602-4620 | offset and length stay inside the content exactly for ranges that name no position after its end, and then select what the range asks for |
| ChunkedWriter.OutStream.WriteOnce | include/httplib.h:4713-4714 | a write whose result is not looked at: each byte is written or dropped, and with none dropped all are written |
| RangesData.InMemoryParts | include/httplib.h:4656-4679 | with the content length an in-memory body has, the part is right exactly for ranges with a first position, other than "from 0 on" |
| RangesData.WriteContent | include/httplib.h:3943-3979 | fails only if the stream fails or the provider refuses; a success puts a prefix of the slice on the stream, all of it if and only if the server was not found shutting down, for any provider that makes progress and does not overshoot |
| RangesData.ContentSink.Write | include/httplib.h:3950-3960 | a piece is on the stream whole and counted, or the stream has failed and the sink with it |
| RangesData.Interpreter.Token | include/httplib.h:4675-4714 | the token callbacks: appended, counted, or written once, with every byte either on the stream or counted as dropped by it |
| RangesData.Interpreter.Content | include/httplib.h:4678-4718 | the three content callbacks: the slice appended, its length counted, or its bytes written, none of them dropped, and cut off only by a shutdown |
| RangesData.WriteHead | include/httplib.h:4640-4654 | the header lines of a part, token by token |
| RangesData.WritePart | include/httplib.h:4639-4663 | one turn of the traversal adds exactly one part |
| RangesData.ProcessMultipartRangesData | include/httplib.h:4634-4668 | one traversal for all three interpreters produces the whole body; the stream's fails only if the stream fails or the provider refuses, the in-memory one exactly if a part starts at or after the end, the dry run never |
| RangesData.DryRunIsExact | include/httplib.h:4687-4703 | for ranges inside the content, the dry run counts the bytes of the body |
| RangesData.PartCarriesRange | include/httplib.h:4639-4662 | section 14.6 of RFC 9110: each part is its header and exactly the bytes its range asks for |
| RangesReadBack.ContentRangeIsRead | include/httplib.h:4622-4632 | the range header of a part gives back the range and the length of the content |
| RangesReadBack.BodyIsReadBack | include/httplib.h:4634-4668 | section 14.6 of RFC 9110: a recipient that takes as many bytes as each range header says reads the whole body back as the requested ranges in order, with type, total length and exactly the bytes asked for, whatever content and boundary |
| RangesData.MakeMultipartRangesData | include/httplib.h:4670-4685 | the in-memory body, or failure exactly if a part starts at or after the end |
| RangesData.RespondWithRanges | include/httplib.h:6356-6360 | the announced Content-Length is the length of the body; writing fails only if the stream fails or the provider refuses; a success has put that many bytes on the stream if and only if no unchecked write dropped any and no shutdown was noticed, and then the stream holds the body; never more |
| PathParams.CompileCovers | include/httplib.h:5415-5458 | a pattern is its fragments and markers, up to one `/` at the end |
| PathParams.CompileIsClean | include/httplib.h:5429-5454 | fragments hold no marker, names no slash |
| PathParams.SameUpToNul | include/httplib.h:5475-5478 | with a NUL in a fragment only the part up to the first one is compared |
| PathParams.Scan | include/httplib.h:5427-5457 | the constructor's loop compiles the pattern |
| PathParams.MatchIsSound | include/httplib.h:5460-5501 | a match means the path is the pattern with the captured values in place |
| PathParams.MatchIsComplete | include/httplib.h:5460-5501 | any slash-free values put in place match and are exactly what is captured |
| PathParams.MatchIff | include/httplib.h:5415-5501 | both directions, up to one `/` after a final parameter, for patterns without NUL |
| PathParams.PathParamsMatcher.Match | include/httplib.h:5460-5501 | the loop over fragments and positions computes the captures and fills the parameter map |
| PathParams.FirstValueCounts | include/httplib.h:5493-5494 | `emplace` keeps the first value of a name |
| PathParams.DistinctNamesKeepValues | include/httplib.h:5493-5494 | with distinct names every parameter maps to its own value, and to nothing else |
| PathParams.ValuesKeptIff | include/httplib.h:5493-5494 | every parameter finds its own captured value in the map if and only if equal names have captured equal values |
| PathParams.KeptForAllPathsIff | include/httplib.h:5440-5494 | so for all captures if and only if the names are distinct, which the constructor does not check |
| PathParams.RepeatedNameIsAccepted | include/httplib.h:5440-5450 | a concrete pattern that repeats a name is compiled, and its second value dropped |
| SftpUpload.StepKeepsInv | src/SFTPSaver.cpp:60-445 | every outcome of every call keeps the invariant on remote file, handle and completion |
| SftpUpload.UploadIsSafe | src/SFTPSaver.cpp:60-445 | over every run: the remote file is the content up to what was written, complete exactly after a normal end; the handle is closed once if opened, before the one completion |
| SftpUpload.EveryRun | src/SFTPSaver.cpp:60-445 | the invariant holds after every run |
| SftpUpload.StepLowersRank | src/SFTPSaver.cpp:145-425 | every event that is not a would-block brings the upload forward |
| SftpUpload.UploadEnds | src/SFTPSaver.cpp:60-425 | the length of a run is bounded by file size and would-blocks, and only an ended device is stuck |
| SftpUpload.OnlyErrorsCut | src/SFTPSaver.cpp:332-425 | without an error an upload ends only with the whole file |
| SftpUpload.StagesInOrder | src/SFTPSaver.cpp:145-330 | in every run the calls succeed in the order handshake, authentication, SFTP initialisation, open, and the remote file has been opened exactly if all four have |
| SftpUpload.GivesUpIff | src/SFTPSaver.cpp:60-425 | an upload gives up if and only if the host could not be resolved or a connection, a call, a wait or a write has failed |
| SftpUpload.SFTPUploadDevice.StartSFTPUpload | src/SFTPSaver.cpp:60-134 | starting, and a repeated start that does nothing |
| SftpUpload.SFTPUploadDevice.OnConnect | src/SFTPSaver.cpp:115-133 | connected or given up |
| SftpUpload.SFTPUploadDevice.StartStage | src/SFTPSaver.cpp:145-276 | handshake, authentication and SFTP initialisation: go on, wait, or give up |
| SftpUpload.SFTPUploadDevice.StartSFTPOpen | src/SFTPSaver.cpp:278-330 | opening truncates the file and reports the location |
| SftpUpload.SFTPUploadDevice.StartSFTPWriteBlocks | src/SFTPSaver.cpp:332-425 | one write of any part of what remains |
| SftpUpload.SFTPUploadDevice.OnReady | src/SFTPSaver.cpp:362-418 | the handlers of the waits |
| SftpSaver.StepKeepsSaveInv | src/SFTPSaver.cpp:681-720 | every step of the loop, a device or a callback keeps the countdown equal to the devices that have not reported |
| SftpSaver.OneCompletion | src/SFTPSaver.cpp:681-720 | over every interleaving: `handle_write` at most once, only after every upload has ended and reported; the counter never wraps; at rest it has been called |
| SftpSaver.DevicesRun | src/SFTPSaver.cpp:681-720 | a save is nothing but its uploads: every device has made exactly its own events, the files submitted are counted, the reports recorded |
| SftpSaver.EachFileByItself | src/SFTPSaver.cpp:681-720 | at the completion a file is its content unless it was given up, which happened exactly if one of its own steps failed, whatever became of the others |
| SftpSaver.SaveEnds | src/SFTPSaver.cpp:681-720 | the length of every run is bounded by the sizes and number of the files and the calls that would block |
| SftpSaver.CompletionMeansWritten | src/SFTPSaver.cpp:681-720 | without an error the completion means every remote file is its content |
| SftpSaver.SaveASync | src/SFTPSaver.cpp:636-722 | missing, empty or mismatched data posts one completion; otherwise one started device per file, with the user, host and path parsed from the URL and the file's content |
| SftpSaver.UploadIsOfUrl | src/SFTPSaver.cpp:664-706 | for a URL with user, host and path the upload goes to that host as that user, to the file's name behind the path, with the file's own content |
| SftpSaver.FullPath | src/SFTPSaver.cpp:687-692 | the file's name behind the base path, with a slash between them added exactly if one is missing |
| SftpSaver.LocationIsReadable | src/SFTPSaver.cpp:323-326 | for every accepted URL and file, the reported location is read again as scheme, user, host and that file's path |
| SftpSaver.Countdown.Report | src/SFTPSaver.cpp:709-716 | the callback is the machine's step, with the unsigned decrement |
| MnnSaver.StepKeepsInv | src/MNNSaver.cpp:62-118 | every turn of the loop and every handler keeps the count of unreported writes |
| MnnSaver.OneCompletion | src/MNNSaver.cpp:62-118 | any interleaving, any failure at any file: `handle_write` once, or an exception and never; the counter never wraps |
| MnnSaver.FailuresMean | src/MNNSaver.cpp:85-117 | the loop throws exactly if the directories of a file could not be made, gives up and completes exactly if a file could not be opened; the files written are those whose handler has run |
| MnnSaver.RunsEnd | src/MNNSaver.cpp:85-117 | every run ends, after at most two steps a file and one more |
| MnnSaver.RestMeansStuck | src/MNNSaver.cpp:85-117 | a run is at rest exactly when no step is possible |
| MnnSaver.NoPathsNoCompletion | src/MNNSaver.cpp:85-86 | with contents but no paths nothing is ever called back |
| MnnSaver.EarlyCompletionIff | src/MNNSaver.cpp:98-102 | for every number of files and every index: a run exists in which the completion comes, after a failed open of that file, with a write in flight, if and only if the file is not the first |
| MnnSaver.CompletionIsLast | src/MNNSaver.cpp:107-115 | without a failed open the completion comes when no write is in flight |
| MnnSaver.Save.SaveASync | src/MNNSaver.cpp:62-118 | the loop makes the machine's turns up to the first failure; null data throws |
| MnnSaver.Save.Written | src/MNNSaver.cpp:107-115 | the write handler is the machine's step |
| FileManager.StepKeepsInv | src/FileManager.cpp:61-147 | every step keeps the count, and stops the event loop exactly when it takes the count from one to zero |
| FileManager.CountIsOutstanding | src/FileManager.cpp:61-236 | over every run: the count is the operations in flight plus those leaked, the "none already" branch is never taken, each caller is called back once if its operation came to its end or its data was handed to a chained saver |
| FileManager.StopsAtZero | src/FileManager.cpp:211-229 | the event loop is stopped exactly at transitions to zero: never with work in flight, always at the end of the last |
| FileManager.RunDecides | src/FileManager.cpp:43-147 | after every run there are as many operations as were begun, each in the stage its own moves say, whatever the others did, and the count is those in flight or leaked |
| FileManager.LeakPreventsStop | src/FileManager.cpp:62-103 | after a loader or chained saver has thrown, it is never stopped again |
| FileManager.Manager.DecrementOutstandingOperations | src/FileManager.cpp:211-229 | the counter's branches are the machine's |
| FileManager.Manager.LoadASync | src/FileManager.cpp:43-103 | an unknown prefix throws uncounted; otherwise the operation is counted before the loader runs |
| FileManager.Manager.HandleRead | src/FileManager.cpp:64-98 | the read handler lowers the count, or leaves that to the chained saver |
| FileManager.Manager.ChainedWrite | src/FileManager.cpp:81-82 | the chained saver's completion lowers the count |
| FileManager.Manager.SaveBegin | src/FileManager.cpp:106-137 | an unknown prefix throws uncounted; otherwise the operation is counted before the saver runs |
| FileManager.Manager.SaveEnd | src/FileManager.cpp:130-147 | completion or exception lowers the count once |
| ManagedSaves.SaverKeepsPromise | src/MNNSaver.cpp:62-118 | the local saver calls back at most once, or throws and never calls back; the SFTP saver calls back at most once |
| ManagedSaves.AnswerIsExpected | src/FileManager.cpp:64-147 | whenever a saver, called by a save or chained to a load, calls back or throws, its operation is still outstanding in the manager |
| ManagedSaves.StepKeepsInv | src/FileManager.cpp:43-147 | manager and savers together keep the invariant of both |
| ManagedSaves.ManagerRuns | src/FileManager.cpp:61-236 | a run of the manager with its savers, chained ones included, is a run of the manager, so its count and stop theorems hold without assuming anything of the savers |
| ManagedSaves.SaversRun | src/FileManager.cpp:43-147 | after every run an operation has a saver exactly if it is a save or one was chained to it, and that saver is where its own moves lead by themselves |
| ManagedSaves.SavesEnd | src/FileManager.cpp:64-147 | an operation whose saver has nothing left to do is still counted if and only if that is a local save of no files, or one chained to a load that threw |
| SftpUrl.GetURLComponents | src/URLStringUtil.cpp:7-36 | splits at the first `://`, extension after the last dot; fails exactly without `://`, leaving its outputs alone |
| SftpUrl.LastDot | src/URLStringUtil.cpp:26-34 | the scan for the last dot finds the extension |
| SftpUrl.ExtensionMeans | src/URLStringUtil.cpp:26-34 | the extension has no dot and stands behind the last one |
| SftpUrl.ParseSFTPUrl | src/URLStringUtil.cpp:85-196 | the reassignments of the out-parameters compute the parsing function |
| SftpUrl.ParseCredentials | src/URLStringUtil.cpp:124-175 | user, password, key files and passphrase out of the text before the `@` |
| SftpUrl.AcceptedParts | src/URLStringUtil.cpp:85-196 | an accepted URL yields a user without `@` and `:`, a non-empty host without slash and a path that starts with one |
| SftpUrl.AcceptedIff | src/URLStringUtil.cpp:85-196 | accepted exactly if behind the first `@`, or in a URL without one, a slash follows a non-empty host; without an `@` there is no user and no credential |
| SftpUrl.UserFormIsRead | src/URLStringUtil.cpp:108-194 | a URL with a user reads back |
| SftpUrl.PasswordFormIsRead | src/URLStringUtil.cpp:124-194 | a URL with a password reads back exactly if the password holds neither key marker |
| SftpUrl.PublicFormIsRead | src/URLStringUtil.cpp:138-147 | a URL with a public key file reads back, whatever the file's name |
| SftpUrl.KeyFormIsRead | test/src/sftp_saver_test.cpp:297-305 | a URL with a private key file reads back exactly if the file's name holds neither marker word that is searched in it |
| SftpUrl.PhraseFormIsRead | src/URLStringUtil.cpp:149-172 | with a passphrase behind the key file: reads back exactly if the file's name holds no passphrase marker and the whole no public key marker |

## Left out

- Sockets, DNS, TLS, `select`, `mmap`, the disk, libssh2, Boost.Asio and libp2p themselves: they are environment steps.
- Handlers, counter updates and critical sections are atomic steps; data races inside them are not modelled.
- gzip and brotli: only the writer without a compressor is modelled.
- Digest hashing, certificates and cookies: an authentication challenge is usable or not.
- The `std::regex` engine: the few fixed expressions (range header, content disposition, redirect target) are recognisers or a given result.
- The request, response and server plumbing of `httplib.h`, its settings and its many overloads: forwarding.
- `src/SFTPLoader.cpp` and `src/SFTPCommon.cpp` are not built and not part of this model; nor are the HTTP, WS, IPFS and MNN loaders, which are callback wiring around libraries.
- `SFTPSaver::SaveFile` and `MNNSaver::SaveFile`, which save one file with blocking calls and throw on any error, are not modelled.
- The MNN loader's and saver's file devices, random directory names and the contents written to the local disk: a write is started and reports once.
- The choice between key and password authentication in the upload device: its outcome is the environment's.
- Port numbers: `StartSFTPUpload` splits them off the host, and the redirect code converts them; both are given outcomes.
- Unregistered saver types of a chained save and an unregistered parser dereference an end iterator: undefined, excluded.
- MNNSaver with fewer contents than paths reads past the end of a vector: undefined, excluded.
- The multipart epilogue beyond the final line break can depend on chunking; the round trip is about messages without one.
- A server whose `send` accepts zero bytes without an error would make the write loops spin; a stream write here takes at least one byte or fails.
- The dry run's `size_t` sum is unbounded here; a wrap would need parts of 2^64 bytes.
- MultipartRoundTrip.FirstWholeOpening: is about a first whole boundary line that stands before an item; what exactly is delivered from one inside content or at the end of a Content-Type line is not stated, only that it is not what was sent.
- Redirects.Send: headers and cookies are not part of the request, and a redirect target that makes the number conversion of its port throw is not modelled.
- PathParams.MatchIff: is about patterns without NUL bytes, since the comparison stops at one.
- Chunked.FieldIsRead: `parse_header` is a function here, not its pointer loop.
