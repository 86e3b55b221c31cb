# Verified models of the BASIC runtime and its HTTP library

The project models three parts of the repository and proves what they keep, what they undo and where
they fail: the protocol logic of the bundled HTTP library (`include/httplib.h`), the object model of the
BASIC runtime (`lib/core/core.h`), and its string functions (`lib/System.cpp`).

Run `dafny verify dfyconfig.toml` to check everything.

| file | what it models |
|---|---|
| `Text.dfy` | byte strings and the few string operations that everything rests on |
| `Multipart.dfy` | the multipart/form-data parser as a step function on parser states (section 5.1.1 of RFC 2046, section 4 of RFC 7578) |
| `MultipartFragments.dfy`, `MultipartStraddle.dfy` | cutting its input into calls: when it makes no difference, and why it does otherwise |
| `MultipartForm.dfy`, `MultipartRoundTrip.dfy` | building a form, and reading it back |
| `MultipartHeaders.dfy` | what header lines of a part mean: the pattern for Content-Disposition, and all other lines |
| `MultipartBodies.dfy` | what is read from bodies written by others, and a content that some cut spoils |
| `MultipartParser.dfy` | the parser object itself, method by method, and what every call keeps |
| `ClientSocket.dfy` | the client's socket shared by sends, nested sends and stops of any threads, as a transition system |
| `Redirect.dfy` | the recursion through redirects and digest retries |
| `ThreadPool.dfy` | the thread pool on a mutex and a condition variable, as a transition system |
| `Streams.dfy`, `LineReader.dfy` | byte streams with short reads and writes, and the line reader with its two buffers |
| `Chunked.dfy`, `ChunkSizes.dfy` | the chunked-coding writer and reader (section 4.1 of RFC 7230), and chunk sizes as others print them |
| `Multimap.dfy`, `Url.dfy`, `Query.dfy`, `Headers.dfy` | percent coding, form queries and header blocks |
| `Ranges.dfy` | byte ranges (section 2.1 of RFC 7233) |
| `Base64.dfy` | the base64 encoder on a 32-bit accumulator (section 4 of RFC 4648) |
| `RefCount.dfy`, `RefHeap.dfy` | reference counting with cascading deletion, as a model and as operations in place |
| `BasicArray.dfy` | arrays with up to four dimensions and any bounds |
| `Replace.dfy`, `SplitJoin.dfy` | `Replace`, `Split`, `SplitAny` and `Join` |

Code that changes state in the source is a class or a method with a loop here, proved against a function
that says what it computes; what the source promises is then proved about that function. Where threads
meet, each critical section is one step of a transition system, and properties hold for every
interleaving. Where a property holds only for some inputs, the lemma says for which, in both directions.

## Findings

- A body that is cut into several `parse` calls can be read differently from one call. When the delimiter is
  not yet complete in the buffer, the parser delivers as many bytes as the delimiter is long, and these can
  include its first bytes. `MultipartStraddle.CutIndependentIff` gives the exact condition, for callbacks that may
  refuse any part; contents without CR LF and two dashes always meet it (`MultipartBodies.WithoutMarksIndependent`).
- A form field whose name holds a quote followed by something like a file name parameter is read back as another
  name; other quotes do no harm (`MultipartRoundTrip.DispositionIff`, `MultipartRoundTrip.FormRoundTrip`).
- A nested `send` (redirect or digest retry) clears the flag by which `stop` asks for the socket to be closed,
  so a `stop` before it is forgotten (`ClientSocket.StopForgotten`; `ClientSocket.ClosedAtFinish` is exact).
- After a redirect the response is tested again for a digest challenge, so retries multiply: in builds with
  `CPPHTTPLIB_OPENSSL_SUPPORT`, which alone have the retry (include/httplib.h:5217), a single request with redirects
  and credentials can cause 296009 requests (`Redirect.FreshWorst`); without either, and in all other builds, at most
  21 (`Redirect.MultiplyIff`, `Redirect.FreshRequest`).
- A write of zero bytes ends a chunked transfer as a success without the last chunk (`Chunked.EmptyWriteEnds`);
  readers succeed exactly if `done` was called (`Chunked.CompleteIff`).
- The chunked reader reports success when the line behind the data of a chunk is anything but CR LF
  (`Chunked.BrokenChunkAccepted`). In particular a transfer that breaks off directly behind the CR after a chunk
  passes for complete, and at no other place before its end (`Chunked.TruncationIff`).
- The Content-Range of a reply is not clamped when the requested last position is beyond the end of the body
  (`Ranges.ApplyRange`).
- A header map does not survive writing and reading when a value contains something that looks like a percent
  escape, although the writer does not escape, nor when one of its keys is `EXCEPTION_WHAT`, which the writer leaves
  out of the message's own map (`Headers.HeadersRoundTrip`, `Headers.MapRoundTrip`, with the exact condition). Keys of
  form parameters, which are printed as they are, are read as escapes too (`Query.QueryRoundTrip`).
- `InStr` moves its arguments up when the text is empty: `Replace` on an empty source inserts the new text if
  the old one contains the digit 1, and replacing by nothing can loop for ever (`Replace.CorrectIff`,
  `Replace.EndsIff`).
- `Join` puts a separator in front of every positive index and reads only as many cells as the first dimension has:
  it works as expected for arrays from 0 without further cells only, and without a separator for other bounds too
  (`SplitJoin.JoinAlwaysIff`; `SplitJoin.JoinArrayIff` for a given content).
- An index beyond its own bound is not always noticed, in any array of two or more dimensions
  (`BasicArray.CheckedIff`).
- Redim Preserve with another lower bound moves the rows: cells that lie in both the old and the new bounds change
  their value or lose it (`BasicArray.PreserveCommonIff`).
- Assigning to a field of an object deletes the object before the field is written if nothing but the old contents
  of that field holds it (`RefCount.AssignFaultIff`); unreachable cycles get there (`RefCount.WriteAfterDelete`).

## Model

| member | source | states |
|---|---|---|
| Multipart.FindStringFirst | include/httplib.h:3345-3362 | the scan for CR LF and two dashes stops at the first place where they stand in full or may still be completed by later bytes |
| MultipartParser.MultipartFormDataParser.Parse | include/httplib.h:3186-3318 | one call on the real fields, with callbacks that may refuse: fields, deliveries and return value are those of stepping the parser over the buffer until it is empty or a step returns |
| MultipartParser.MultipartFormDataParser.ParsePhase | include/httplib.h:3198-3315 | one pass of the loop, in every phase, makes progress and never changes where the call will end |
| MultipartParser.MultipartFormDataParser.ParseHeaders | include/httplib.h:3215-3248 | all header lines up to the blank one, with the header callback deciding there whether the part is taken |
| MultipartParser.MultipartFormDataParser.ParseBody | include/httplib.h:3249-3264 | bytes in front of a possible mark are delivered and leave the buffer; a refusal makes the request invalid |
| MultipartParser.MultipartFormDataParser.ParseDelimiter | include/httplib.h:3264-3289 | the delimiter ends the part; without one, as many bytes as it is long are delivered, whatever they are |
| MultipartParser.MultipartFormDataParser.ParseBoundaryEnd | include/httplib.h:3290-3309 | what follows a boundary: another part, the end of the form, or more input is needed |
| MultipartParser.MultipartFormDataParser.FindStringIn | include/httplib.h:3345-3362 | the loop over first characters finds exactly the stopping place of the scan |
| MultipartParser.Conservation | include/httplib.h:3196-3317 | for all input and all answers of the callbacks, bytes counted plus bytes buffered is what was fed, and the buffer is the unread end of it |
| MultipartParser.PartAccounts | include/httplib.h:3249-3289 | a whole call that begins inside a part, whatever the callbacks answer: every byte taken is delivered to that part once and in order, up to the delimiter that ends it; after a refusal what was refused is still in the buffer |
| MultipartParser.BodyAccounts | include/httplib.h:3249-3289 | the same for one pass, whatever the callbacks answer |
| MultipartParser.BoundedBuffer | include/httplib.h:3252-3266 | a call that returns true inside a part holds back fewer bytes than CR LF, two dashes and the boundary |
| MultipartFragments.StepExtend | include/httplib.h:3200-3309 | outside a body, whatever the callbacks answer, bytes that arrive later never change a step that was possible without them |
| MultipartFragments.DeliverBlock | include/httplib.h:3278-3286 | a block delivered for want of a delimiter leads to the same end as if it had waited, as long as the delimiter is landed on |
| MultipartFragments.CutInTwo | include/httplib.h:3186-3318 | feeding the rest in a second call ends like feeding all at once, wherever the cut is, when the delimiters are landed on; any part may be refused by its headers |
| MultipartFragments.FeedManyTimes | include/httplib.h:3186-3318 | the same for any number of calls, empty and one-byte fragments included |
| MultipartStraddle.RunKept | include/httplib.h:3249-3289 | whatever is fed and answered, what has been delivered stays delivered: parts only grow |
| MultipartStraddle.RunAccepting | include/httplib.h:3213-3224 | for callbacks that may refuse parts, but none of their content: a call ends where the loop would end if all were taken, or at the first part that is refused, and it returns false exactly in the states that refuse more input |
| MultipartStraddle.Swallow | include/httplib.h:3278-3286 | when a block covers the first byte of a delimiter without starting there, some end of input makes the parser deliver part of the delimiter as content |
| MultipartStraddle.BadCut | include/httplib.h:3186-3318 | for a body whose delimiters are not all landed on, up to the part that is refused if one is, there is a cut in two calls that changes the parts |
| MultipartStraddle.CallsFeed | include/httplib.h:4479-4481 | for callbacks that may refuse parts: a caller that stops at the first call that returns false ends, but for bytes not looked at, as if it had gone on, and a call returns false if and only if the last state is one that refuses |
| MultipartStraddle.CutIndependentIff | include/httplib.h:3186-3318 | fragmentation independence, exactly, for callbacks that may refuse parts and a caller that stops at the first refusal: parts, phase, validity, position and whether a call refuses are the same for all cuts into calls if and only if every delimiter found in the one-call run, up to the part that is refused, is one that blocks of its length land on |
| MultipartForm.Build | include/httplib.h:5795-5825 | the request body and content type of a form; refused exactly for a boundary with a character that is not a letter, a digit, a dash or an underscore |
| MultipartForm.BoundaryRecovered | include/httplib.h:3132-3142 | the boundary read from the content type is the one that was announced; the empty one is refused |
| MultipartForm.BoundaryCharIff | include/httplib.h:5797-5802 | the characters that a boundary may have are the letters, the digits, dash and underscore |
| MultipartForm.BoundaryParameter | include/httplib.h:3132-3142 | a boundary in quotes, or without, behind any other text: the quotes are taken off, and an empty one is refused |
| MultipartForm.NoBoundary | include/httplib.h:3132-3135 | a content type without the parameter is refused |
| MultipartHeaders.MatchIff | include/httplib.h:3189-3192 | a Content-Disposition line is read if and only if it has the three words, in any letter case and with any white space, a quoted name and perhaps a quoted file name; the name is the shortest with which the whole line fits |
| MultipartHeaders.LineRead | include/httplib.h:3230-3241 | one header line: Content-Type in any letter case sets the type, a Content-Disposition that matches sets both names, and any other line changes nothing |
| MultipartHeaders.NotedIs | include/httplib.h:3226-3243 | what is noted of a part is its last matching Content-Disposition line and its last Content-Type line, whatever lines there are |
| MultipartHeaders.OthersIgnored | include/httplib.h:3226-3243 | lines of other kinds can be left out |
| MultipartRoundTrip.DispositionIff | include/httplib.h:3234-3240 | for every item, its Content-Disposition line gives back name and file name if and only if both are on one line and no quote in the name is followed by what looks like a file name parameter |
| MultipartRoundTrip.RunSober | include/httplib.h:3215-3248 | whatever is fed and answered, names and file names come without line breaks, and content types trimmed and on one line |
| MultipartRoundTrip.TypeHeader | include/httplib.h:3230-3233 | a built Content-Type line, for every type, sets the content type without the blanks around it: the type itself if and only if it has none |
| MultipartRoundTrip.ContentEnds | include/httplib.h:3268-3277 | in front of its delimiter a content is cut short exactly if it contains the delimiter itself |
| MultipartRoundTrip.NoMarkLands | include/httplib.h:3278-3286 | a content without CR LF and two dashes is landed on under every allowed boundary |
| MultipartRoundTrip.FormRoundTrip | include/httplib.h:5805-5821 | for every item list and callbacks that take everything: building a form and feeding it in one call gives exactly the items, in order, valid and complete, if and only if there are items, no content contains the delimiter, and all names and types are readable |
| MultipartRoundTrip.FormAnyCut | include/httplib.h:3186-3318 | for every item list: a built form comes back under every cut into calls if and only if it comes back in one call and every content lands |
| MultipartBodies.WithoutMarksIndependent | include/httplib.h:3186-3318 | every well-formed body, with any header lines and any epilogue, is independent of the cut if no content has CR LF and two dashes, also when a part of it is refused |
| MultipartBodies.BodyRead | include/httplib.h:3186-3318 | a well-formed body in one call, for callbacks that may refuse parts: exactly its parts are delivered, in order, each under what its header lines say, up to the first one refused; it is valid if and only if none is refused and nothing follows it |
| MultipartBodies.OtherLinesIgnored | include/httplib.h:3226-3243 | header lines of other kinds, put into any parts, change neither the parts nor the phase, the validity or the answer |
| MultipartBodies.NotOpened | include/httplib.h:3200-3209 | a body that does not begin with the opening boundary line is refused as soon as that can be told, and nothing is delivered |
| MultipartBodies.WaitsForEver | include/httplib.h:3290-3309 | behind a boundary anything but CR LF, or two dashes and CR LF, makes the parser wait for ever |
| MultipartBodies.SpoiledBehindEnd | include/httplib.h:3311-3314 | anything behind the end of the form is refused and makes it invalid |
| MultipartRoundTrip.EmptyForm | include/httplib.h:3200-3209 | a form without items is refused by the parser: it begins with the closing delimiter |
| MultipartBodies.StraddlingContent | include/httplib.h:3278-3286 | a content without the delimiter, and the cut that spoils it: the first byte of the delimiter is delivered as content |
| ClientSocket.StepInv | include/httplib.h:5105-5185 | every step of every thread keeps: requests in flight are the sends of the owner of the request mutex that have their socket, and that owner is the recorded thread |
| ClientSocket.RunSafe | include/httplib.h:5034-5071 | in every interleaving of send, nested send, stop and close by any threads no assertion on the closing thread or the counter fails |
| ClientSocket.AssertsFail | include/httplib.h:5034-5071 | what the assertions are: on any state, closing while other threads have requests, beginning beside them, and finishing an uncounted request make one fail |
| ClientSocket.CounterIs | include/httplib.h:5105-5185 | in every run the counter is zero exactly if no request is in flight, and else counts those of one thread, the recorded one |
| ClientSocket.OneSender | include/httplib.h:5105-5185 | no two threads have requests in flight at once |
| ClientSocket.EnterIff | include/httplib.h:5105-5106 | a send can be entered exactly if no other thread is in one, and those of this thread have their requests in flight |
| ClientSocket.MovesIff | include/httplib.h:5105-5185 | what a thread in a send can do next, by the actions of the run: finish or be told to close while its innermost request is in flight, and else begin it or leave |
| ClientSocket.StopLeaves | include/httplib.h:6014-6034 | after a stop the socket of a client with no request in flight is closed; with one in flight an open socket is the same one, shut down |
| ClientSocket.BeginLeaves | include/httplib.h:5112-5160 | a send begins on the kept socket if that is open and alive, else on a new one that the run has not had, else on none |
| ClientSocket.FinishLeaves | include/httplib.h:5164-5178 | the end of a send closes the socket for one of three reasons, or leaves it as it was |
| ClientSocket.OthersLeave | include/httplib.h:5582-5596 | the wish of the peer closes the socket; entering and leaving a send do not touch it |
| ClientSocket.OnlySenderCloses | include/httplib.h:6014-6034 | while one thread has a request in flight, by the Begin and Finish actions of the run, any other can at most shut the socket down; it neither closes nor replaces it |
| ClientSocket.StopRemembered | include/httplib.h:5112-5112 | the wish to close is remembered exactly until the next send begins, nested ones included |
| ClientSocket.ClosedAtFinish | include/httplib.h:5164-5178 | a send ends with a closed socket exactly if a stop is pending, the connection of that send was not to be kept, the request failed, or it was closed before |
| ClientSocket.StopDuringSend | include/httplib.h:6014-6034 | for a send that has a socket and in which no other begins: closed at its end if and only if some thread called stop meanwhile, or it was not to be kept, or failed, or the peer asked for it |
| ClientSocket.StopForgotten | include/httplib.h:5112-5112 | a run in which a stop during the outer send is lost because a nested send begins |
| Redirect.Client.Send | include/httplib.h:5105-5185 | requests made, answers used, depth of nesting and result of a send are those of the recursion over the answers; the recursion ends |
| Redirect.Client.HandleRequest | include/httplib.h:5194-5248 | a redirect first, then a digest retry of this request if the response that came of it asks for one |
| Redirect.Client.FollowLocation | include/httplib.h:5250-5301 | a redirect is refused when none are left or the location is unusable; a failed one leaves the response as it was |
| Redirect.RunOutcome | include/httplib.h:5194-5301 | whatever is answered, the answers used decide: a send succeeds with the last one, a reply that does not redirect, and fails when the last is none, redirects nowhere, or comes when all redirects are used up; every other one makes it go on, and a demand for credentials is final only when all retries are used up |
| Redirect.Bounded | include/httplib.h:5194-5256 | for all answers, requests and nesting are bounded by the redirects and retries that the settings leave |
| Redirect.Attained | include/httplib.h:5214-5244 | for all settings and counts some answers reach both bounds |
| Redirect.BoundClosed | include/httplib.h:5214-5244 | the bound in closed form: with r redirects and b retries, one less than a binomial coefficient |
| Redirect.FreshRequest | include/httplib.h:5194-5256 | the most requests and nested calls of a new request: 296009 and 26 with redirects and credentials of either kind, 21 and 21 with redirects only, 6 and 6 with credentials only, 1 and 1 with neither |
| Redirect.FreshWorst | include/httplib.h:5214-5244 | for every setting both maxima are reached |
| Redirect.MultiplyIff | include/httplib.h:5214-5244 | a new request makes at most 26 requests, whatever is answered, if and only if redirects are not followed or no credentials are set |
| ThreadPool.StepInv | include/httplib.h:517-560 | every step, spurious wake-ups included, keeps the invariant: no lost wake-up, first in first out, workers leave only to shut down |
| ThreadPool.History | include/httplib.h:517-560 | for every run, what is on record is what its actions say: jobs handed over, in order, jobs that returned, and how many came before the shutdown |
| ThreadPool.QueueIs | include/httplib.h:517-560 | in every reachable state the queue is the jobs handed over, in order, without those being run or returned, which are the first ones, each in one place |
| ThreadPool.Possible | include/httplib.h:517-560 | a job can be handed over at any time, and every worker but one that has left can go on |
| ThreadPool.NeverStuck | include/httplib.h:517-551 | in every reachable state with jobs handed over that nobody has taken, some worker is awake, and while one sleeps enough others are about to look at the queue to take every job |
| ThreadPool.Drained | include/httplib.h:523-559 | when all workers have left, the jobs that have run are the first ones handed over, each exactly once, all from before the shutdown among them; the others are still queued |
| ThreadPool.ShutdownProgress | include/httplib.h:530-535 | after the notification some worker can go on until all have left, and every step but a new job brings the end nearer |
| ThreadPool.ShutdownReturns | include/httplib.h:523-536 | without new jobs only so many steps are possible after the notification, and when none is left all workers have left |
| Streams.WriteData | include/httplib.h:2905-2913 | everything is sent, whatever short writes there are; after a failure a prefix |
| Streams.ReadContentWithLength | include/httplib.h:2706-2726 | exactly the length asked for is delivered and taken, or all there was and a failure |
| LineReader.LineIs | include/httplib.h:1671-1693 | the text up to the first line feed is the line, whatever follows |
| LineReader.StreamLineReader.Append | include/httplib.h:1698-1709 | a byte more, in the fixed buffer or moved to the growing string; the assertion on the terminator holds |
| LineReader.StreamLineReader.GetLine | include/httplib.h:1671-1694 | the two buffers stand for exactly the next line, however it is split between them, and nothing behind it is taken |
| LineReader.StreamLineReader.Ptr | include/httplib.h:1650-1656 | what a C string function sees is the line up to its first NUL, in both buffers |
| LineReader.StreamLineReader.EndsWithCrlf | include/httplib.h:1666-1669 | whether the line ends with CR LF |
| Chunked.FromIToHex | include/httplib.h:1381-1389 | the digits of a number in base 16 |
| Chunked.HexParses | include/httplib.h:2771-2776 | strtoul in base 16, with signs, prefixes and overflow, inverts the printing of every number |
| Chunked.ReadContentChunked | include/httplib.h:2758-2796 | for all short reads the result, the content and the bytes left unread are those of decoding the stream; what was delivered before a failure is a prefix |
| Chunked.ChunkedWriter.Write | include/httplib.h:2996-3020 | one chunk for each write that is not empty; an empty one only ends the loop |
| Chunked.ChunkedWriter.Done | include/httplib.h:3022-3050 | the last chunk, once for each call |
| Chunked.ChunkedWriter.WriteContentChunked | include/httplib.h:2989-3067 | for every content provider and all short writes: what was sent is the coding of the operations performed, and the outcome says how the loop ended |
| Chunked.Transfer | include/httplib.h:2987-3067 | for all sequences of sink operations and all following bytes: the reader delivers what was written before the first done and stops right behind its marker; without done it goes on with what follows |
| Chunked.CompleteIff | include/httplib.h:2789-2793 | the reader succeeds if and only if done was called |
| Chunked.SuccessLast | include/httplib.h:3054-3066 | without a shutdown the writing loop ends well only after a done or an empty write |
| Chunked.SuccessDelivers | include/httplib.h:3054-3066 | a provider that makes no empty write and ends by itself has its content delivered up to the first done |
| Chunked.LoopEnds | include/httplib.h:3054-3066 | the loop goes on through rounds after which there is more data, and ends with the first other one: at a shutdown before it, cancelled when the provider gives up, and else well |
| Chunked.EmptyWriteEnds | include/httplib.h:2999-3000 | after any operations without done, an empty write ends the transfer as a success that the reader takes for broken |
| Chunked.BehindChunk | include/httplib.h:2782-2787 | behind the data of a chunk, for every tail: nothing is a failure, CR LF goes on with what follows, any other line ends the content as a success |
| Chunked.BrokenChunkAccepted | include/httplib.h:2782-2787 | the reader succeeds if and only if the line behind the data is not CR LF, complete or not, or what follows it is read with success |
| Chunked.TruncationIff | include/httplib.h:2758-2796 | an encoding cut off after any number of bytes is accepted if and only if the marker of the first done is complete or the cut is directly behind the CR that follows the data of a chunk before it; what is delivered is always a prefix of what was written |
| ChunkSizes.StrtoulReads | include/httplib.h:2771-2771 | white space, a sign, 0x and digits in either case are the number they spell, with overflow and negation as in strtoul |
| ChunkSizes.StrtoulRefuses | include/httplib.h:2771-2775 | without a digit at that place there is no number |
| ChunkSizes.ChunkReads | include/httplib.h:2758-2787 | a chunk with a size line of any digits in either case, leading zeros and an extension is read: so many bytes, and then what follows |
| ChunkSizes.SizeDecides | include/httplib.h:2771-2787 | what any size line decides: too large is a failure, too few bytes are delivered and fail, and else they are taken |
| ChunkSizes.LastReads | include/httplib.h:2789-2793 | zeros end the content, well if and only if a blank line follows |
| ChunkSizes.NoSize | include/httplib.h:2771-2775 | a line without a number is a failure |
| Url.DecodeUrl | include/httplib.h:1552-1587 | the loop over percent escapes, with four-digit ones written as UTF-8 |
| Url.EncodeQueryParam | include/httplib.h:1500-1519 | the loop over bytes that escapes all but the unreserved ones |
| Url.DecodeEncode | include/httplib.h:1500-1587 | decoding undoes encoding, for every byte string |
| Url.DecodeWeight | include/httplib.h:1552-1587 | decoding with plus signs never raises twice the length plus the number of plus signs, and lowers it unless nothing was decoded |
| Url.DecodePlain | include/httplib.h:1552-1587 | a character that begins no escape stands for itself, and a plus sign for a blank where that is asked for |
| Url.DecodeByte | include/httplib.h:1571-1577 | a percent sign and two digits in either case are a byte |
| Url.DecodeCode | include/httplib.h:1558-1569 | a code of four digits is written as UTF-8 |
| Url.DecodeStray | include/httplib.h:1557-1582 | a percent sign in front of anything else stands for itself |
| Url.Utf8Is | include/httplib.h:1391-1423 | the bytes are those of section 3 of RFC 3629, from which the code can be read back; surrogates give none |
| Url.EncodeIs | include/httplib.h:1500-1519 | letters, digits and nine marks are kept, and every other byte is a percent sign and two digits with capitals |
| Multimap.EmplaceSorted | include/httplib.h:282-284 | emplacing keeps the entries in key order |
| Multimap.LessIs | include/httplib.h:270-284 | keys are ordered by the first character in which they differ, a part of a key before it |
| Multimap.SameKey | include/httplib.h:270-282 | two names stand for the same header exactly if they are the same word in any letter case; keys of parameters only if they are equal |
| Multimap.EmplaceInOrder | include/httplib.h:270-284 | entries already in order, equal keys included, are kept in that order |
| Query.Split | include/httplib.h:1623-1640 | the pieces between delimiters, without blanks around them and without blank ones |
| Query.ParamsToQueryStr | include/httplib.h:3102-3112 | keys as they are, values encoded, in order |
| Query.ParseQueryText | include/httplib.h:3114-3130 | the first part of each piece is the key, the last of the others the value, both decoded |
| Query.PairRead | include/httplib.h:3114-3130 | a pair with any blanks around its parts: key and value decoded; without a key the value takes its place, and with neither there is no entry |
| Query.LastRead | include/httplib.h:3114-3130 | of more than two parts the first is the key and the last the value |
| Query.ParsedJoin | include/httplib.h:3114-3130 | texts joined by an ampersand have the entries of both, in order |
| Query.NotPlainRank | include/httplib.h:3114-3130 | an entry whose key is not plain is read back only as entries of a strictly lower rank |
| Query.QueryRoundTrip | include/httplib.h:3102-3130 | printing and parsing rebuilds the parameters, repeated keys and empty values included, if and only if every key is non-empty, without blanks at its ends, ampersand, equals sign, plus sign or percent escape |
| Headers.WriteHeaders | include/httplib.h:2882-2903 | one line for each header but the skipped one, cut at NUL, and a blank line |
| Headers.ReadHeaders | include/httplib.h:2678-2704 | the entries of all lines up to the blank one, emplaced in order; what follows is left in the stream; after a failure, the first of the entries |
| Headers.ReadHeaderLine | include/httplib.h:2684-2701 | one line: a blank one ends the block, one that ends with CR LF may add an entry, any other is passed over |
| Headers.ParsePrinted | include/httplib.h:2649-2676 | what parsing a printed header gives, for every value |
| Headers.HeaderForm | include/httplib.h:2649-2676 | a header line with any blanks and tabs around its value, or none: the value without them, decoded; without a colon or a value there is no entry |
| Headers.BlockRead | include/httplib.h:2678-2704 | any block of lines up to the blank one: the entries of those that end with CR LF, in order; a block that breaks off fails |
| Headers.PlainBlock | include/httplib.h:2678-2704 | plain headers are read back in order, with every following byte left alone |
| Headers.NotPlainRank | include/httplib.h:2649-2676 | a header with a plain key and another value comes back only as shorter ones |
| Headers.HeadersRoundTrip | include/httplib.h:2882-2903 | for the two maps that the writer is given: reading back what it sends makes the map of all their headers if and only if no key has a colon, LF or NUL, every value is non-empty, trimmed, without LF, NUL or percent escape, and the first map has none with the key EXCEPTION_WHAT, which is left out |
| Headers.MapRoundTrip | include/httplib.h:2649-2704 | for the map of a response, next to an empty one: reading gives the same map, names in any case and repeated names in order, if and only if the same holds of it |
| Headers.ListRoundTrip | include/httplib.h:2678-2704 | headers given in any order, next to an empty first map, make the map that emplacing them makes if and only if all are plain |
| Ranges.MakeRangeHeader | include/httplib.h:3743-3754 | the header of a list of ranges |
| Ranges.ParseRangeHeader | include/httplib.h:3144-3176 | the ranges of an accepted header, or a failure, also for numbers that do not fit |
| Ranges.Accepted | include/httplib.h:3144-3176 | an accepted header has as many ranges as pieces, at least one, each with the first position not behind the last |
| Ranges.ListRead | include/httplib.h:3144-3176 | a list with any white space behind its commas gives the ranges its digits mean, and is refused if a number does not fit or a first position is behind its last |
| Ranges.OnlyLists | include/httplib.h:3144-3150 | no other header is accepted |
| Ranges.RangesRoundTrip | include/httplib.h:3743-3754 | parsing a printed header gives the ranges back if there are some and all are proper, and fails for every other list |
| Ranges.GetRangeOffsetAndLength | include/httplib.h:3404-3422 | offset and length, in unsigned arithmetic, name exactly the positions that section 2.1 of RFC 7233 selects |
| Ranges.ApplyRange | include/httplib.h:4776-4789 | the body becomes the selected slice, or empty with status 416 exactly if nothing is selected; the Content-Range names the last position as it was given, so it is right exactly if that is not beyond the end |
| Base64.Base64Encode | include/httplib.h:1425-1451 | the loop with a 32-bit accumulator that wraps around writes the base64 text of every byte string |
| Base64.RoundTrip | include/httplib.h:1425-1451 | the decoder of section 4 of RFC 4648 gives the input back |
| Base64.EncodeLength | include/httplib.h:1446-1448 | four characters for each three bytes begun |
| Base64.NextBits | include/httplib.h:1435-1442 | the bits still to be written are not affected by the wrap-around |
| Base64.WriteSymbols | include/httplib.h:1438-1441 | the inner loop: one symbol, or two when six bits are left |
| Base64.PushByte | include/httplib.h:1435-1442 | one more byte, by the number of bytes modulo three: with -6, -4 or -2 in valb and the pending bits kept, what the inner loop writes is what the text for the longer prefix adds, and the bits kept are right again |
| RefCount.DrainInv | lib/core/core.h:259-271 | the delete cascade ends, releases every pending handle, keeps the counts, and changes nothing that stays alive |
| RefCount.SupportedSurvives | lib/core/core.h:259-271 | a set of objects each of which is held by a variable or by a member of the set survives every cascade |
| RefCount.AssignFaultIff | lib/core/core.h:131-139 | an assignment writes into a deleted object if and only if the owner of the field is held by nothing but the old contents of that field; otherwise it keeps all counts |
| RefCount.StepFaultIff | lib/core/core.h:105-150 | the same for every operation |
| RefCount.AllowedSafe | lib/core/core.h:131-139 | writing only fields of reachable objects is enough |
| RefCount.RunFaultIff | lib/core/core.h:99-150 | a run of any operations from the empty program never touches deleted memory if and only if each of its operations is safe |
| RefCount.StepInv | lib/core/core.h:105-150 | every operation on handles keeps: counts are numbers of live handles, no handle points to a deleted object, no object is deleted twice |
| RefCount.CopyDoes | lib/core/core.h:107-115 | a copied handle is one more variable that holds what the source holds; no object and no other handle changes |
| RefCount.AssignDoes | lib/core/core.h:131-139 | after an assignment the destination holds what the source held, whatever it held itself; all other variables and all other fields of surviving objects are as they were |
| RefCount.CreateDoes | lib/core/core.h:117-124 | after a creation the destination holds a new object with so many null fields, and nothing else changes |
| RefCount.DeclareDestroyDo | lib/core/core.h:105-129 | a declared handle is null; a destroyed one is gone and the others are as they were |
| RefCount.DeletionOrder | lib/core/core.h:259-271 | an object is deleted before those that only its fields hold, and of these the one in the last field first |
| RefCount.RunSafe | lib/core/core.h:99-150 | the same over every run from the empty program, with objects deleted exactly when no handle is left |
| RefCount.LiveIsReachable | lib/core/core.h:259-271 | without cycles the live objects are exactly those reachable from variables |
| RefCount.KnotRuns | lib/core/core.h:105-150 | a run of permitted operations after which two objects hold each other and no variable reaches them |
| RefCount.WriteAfterDelete | lib/core/core.h:131-139 | after that run an assignment to a field of one of them writes into a deleted object |
| RefHeap.ObjectHeap.AddRef | lib/core/core.h:251-257 | counting up one object in place |
| RefHeap.ObjectHeap.Release | lib/core/core.h:259-271 | counting down in place, and at zero deleting the object and releasing its fields recursively, is the cascade |
| RefHeap.ObjectHeap.AssignCopy | lib/core/core.h:131-139 | release, store and count, in the order of the source |
| RefHeap.ObjectHeap.Assign | lib/core/core.h:131-139 | assignment through a counted copy of the right-hand side is one step of the model |
| RefHeap.ObjectHeap.Create | lib/core/core.h:117-124 | a new object is stored in a handle and counted |
| RefHeap.ObjectHeap.Copy | lib/core/core.h:107-115 | a copied handle is counted |
| RefHeap.ObjectHeap.Destroy | lib/core/core.h:129-129 | a handle that goes out of scope is released |
| RefHeap.DrainAppend | lib/core/core.h:259-271 | releasing two lists of handles one after the other is releasing them together |
| BasicArray.Bijection | lib/core/core.h:661-691 | the coordinates within the bounds correspond one to one to the positions below the volume |
| BasicArray.IndexIsRowMajor | lib/core/core.h:661-691 | the four index formulas are the row-major position |
| BasicArray.SizeIsVolume | lib/core/core.h:582-595 | the size is the product of the extents of all dimensions |
| BasicArray.FreshRank | lib/core/core.h:491-580 | a redim without preserve makes a full box of its rank, each dimension from the smaller to the larger of its two bounds |
| BasicArray.ResizedIs | lib/core/core.h:491-580 | the vector keeps its first elements, and new ones have the default value |
| BasicArray.PreserveRank | lib/core/core.h:491-580 | redim with preserve replaces the bounds of the first dimension, keeps the others and never adds one |
| BasicArray.PreserveKeeps | lib/core/core.h:476-580 | every cell after redim with preserve, for every rank and also for an array emptied by removals: what was as many rows further as the lower bound has moved, or the default value if that lies outside the old bounds |
| BasicArray.PreserveFewer | lib/core/core.h:504-580 | with fewer pairs of bounds than dimensions the rest of the dimensions is lost and cells keep their position |
| BasicArray.PreserveCommonIff | lib/core/core.h:476-580 | all cells that lie in both boxes keep their value, whatever it is, if and only if the lower bound stays the same or old and new bounds have no index in common |
| BasicArray.OneDimensionChecked | lib/core/core.h:661-664 | for one dimension access fails exactly outside the bounds |
| BasicArray.NextRowTaken | lib/core/core.h:661-691 | in every array of two or more dimensions some indices beyond their bounds name a cell of the next row |
| BasicArray.CheckedIff | lib/core/core.h:661-691 | access fails exactly outside the bounds if and only if there is one dimension |
| BasicArray.WithoutCounts | lib/core/core.h:621-638 | removing a value takes all its occurrences and nothing else |
| BasicArray.Array.Redim | lib/core/core.h:491-580 | all four overloads: new dimensions, and a vector whose size is always the size of the array |
| BasicArray.Array.Get | lib/core/core.h:661-691 | a cell by its indices, or a failure outside the vector |
| BasicArray.Array.Set | lib/core/core.h:661-691 | one cell changed, or none |
| BasicArray.Array.Append | lib/core/core.h:597-608 | one more element at the end and in the bounds; refused for several dimensions |
| BasicArray.Array.Remove | lib/core/core.h:621-638 | the backward loop erases exactly the given value and moves the upper bound with it |
| Replace.Replace | lib/System.cpp:570-587 | the loop over positions returns the text with every occurrence replaced, for all usable arguments |
| Replace.CorrectIff | lib/System.cpp:570-587 | it ends with the leftmost non-overlapping replacement if and only if the arguments are usable, which only concerns empty ones |
| Replace.EndsIff | lib/System.cpp:570-587 | exactly when it ends at all |
| Replace.NonEmptyCorrect | lib/System.cpp:570-587 | with no empty argument it always ends and inserted text is never searched, even if it contains the old text |
| Replace.InsertedIntoNothing | lib/System.cpp:357-373 | in an empty source something is inserted exactly if the old text contains the digit 1 |
| SplitJoin.JoinPieces | lib/System.cpp:961-992 | joining the pieces of a text gives the text back |
| SplitJoin.NoPieceContains | lib/System.cpp:961-992 | no piece contains the separator |
| SplitJoin.Split | lib/System.cpp:961-992 | succeeds exactly for a separator and at most 1025 pieces, and returns them in an array from 0 |
| SplitJoin.SplitJoinIff | lib/System.cpp:961-1040 | splitting a joined list gives it back if and only if no element disturbs the search for the separator behind it |
| SplitJoin.OneCharacter | lib/System.cpp:961-1040 | for a separator of one character: if and only if no element contains it |
| SplitJoin.ReplaceIsSplitJoin | lib/System.cpp:570-587 | replacing is splitting at the old text and joining with the new |
| SplitJoin.PiecesAnyCut | lib/System.cpp:994-1025 | the pieces are cut at every character of the set, contain none, and lose nothing else |
| SplitJoin.OnlyCut | lib/System.cpp:994-1025 | there is only one such way to cut |
| SplitJoin.SplitAny | lib/System.cpp:994-1025 | succeeds exactly for at most 1025 pieces |
| SplitJoin.Join | lib/System.cpp:1027-1040 | the separator goes in front of every element with a positive index; of an array of several dimensions only as many cells are read as the first has |
| SplitJoin.JoinIff | lib/System.cpp:1027-1040 | of the cells that are read: this is the usual joining if and only if they start at 0, or there is no separator or no cell, or one cell at a negative index |
| SplitJoin.JoinArrayIff | lib/System.cpp:1027-1040 | for every array, of any rank, bounds and content: exactly when the result is all its elements with the separator between them |
| SplitJoin.JoinAlwaysIff | lib/System.cpp:1027-1040 | this is so for every content if and only if the first dimension has all cells and starts at 0, or there is no separator or no cell, or one cell at a negative index |
| SplitJoin.SplitOfJoinIff | lib/System.cpp:961-1040 | for every array: splitting what was joined gives its elements if and only if there are 1 to 1025, none disturbs the search for the separator behind it, and the first dimension has all cells and starts at 0 (or one cell at a negative index, or two empty cells of which only one, at a positive index, is read) |
| SplitJoin.JoinOfSplit | lib/System.cpp:961-1040 | joining the array that splitting a text made gives the text back |

## Left out

- Sockets, `select`, name resolution, time-outs, files and clocks: streams are byte sequences with short reads and writes, failures and an end.
- OpenSSL, zlib and brotli: only unencrypted, uncompressed transfer; the digest retry is modelled by its control flow, not by its hashes.
- `std::regex` in general: the fixed patterns for Content-Disposition and for ranges are written out as recognisers.
- The size limits of `size_t` positions, `int` array extents and memory, except where a conversion or a wrap-around takes part in the result.
- The four `redim` overloads are one method with one to four pairs of bounds, the `switch` of `parse` and the rounds of `read_content_chunked` and `read_headers` are split into methods, and lambdas of the sink are methods of a writer object.
- Threads are not executed: critical sections are steps, and steps of different threads come in any order.
- MultipartParser.MultipartFormDataParser.Parse: the callbacks answer by what has been delivered so far; one that counts its calls or looks at single fragments is not covered.
- MultipartFragments.CutInTwo: for callbacks that may refuse a part by its headers, but none of its content; what a refused content leaves behind depends on the fragments that the callback has seen.
- MultipartFragments.FeedManyTimes: the same, and feeding goes on after a refusal; `CallsFeed` treats the caller that stops.
- MultipartStraddle.RunAccepting: for the same callbacks.
- MultipartStraddle.BadCut: for the same callbacks.
- MultipartStraddle.CallsFeed: for the same callbacks.
- MultipartStraddle.CutIndependentIff: for the same callbacks.
- ClientSocket.StopDuringSend: for a send in which no nested send begins; with nested ones `ClosedAtFinish` says what holds.
- ThreadPool.ShutdownReturns: that a step that stays possible is taken in the end is left to the scheduler.
- Redirect.Client.Send: a request with an empty path counts as one that reaches nobody, and which host a redirect leads to does not matter.
- Chunked.ChunkedWriter.WriteContentChunked: the content provider is the list of what it does in each round; it is not run.
- Headers.WriteHeaders: `write_format` with its growing buffer is taken as printing the whole line into the buffer stream.
- Query.QueryRoundTrip: values are strings of bytes; a character stands for one byte.
- Chunked.HexParses: `unsigned long` has 64 bits, as on Linux; with the 32 bits of Windows the longest chunk is shorter.
- Ranges.ApplyRange: replies with several ranges and replies from a content provider are not modelled; the latter take sizes from the empty body.
- Base64.Base64Encode: the inner loop is a method of its own, and the shift of the accumulator is written as multiplication with wrap-around at 32 bits.
- RefCount.RunSafe: handles built with `me == true` are not counted by the source and are no handles of the model; `Terminate` hooks, debug checks and destructors through a base class are left out.
- BasicArray.Array.Redim: sizes beyond `int` are not modelled; initialiser lists and whole-array operators are left out.
- Replace.Replace: requires that the loop ends, since a method that loops for ever has no result; `Replace.EndsIff` says exactly when that is.
- SplitJoin.Split: after an exception only the failure is stated, not the contents of the abandoned array.
- Server routing, cookies, logging, keep-alive counting, multi-range replies, `encode_url`, `read_response_line` and the proxy code are not part of this model.
- wxWidgets, Qt, COM, SQLite and JSON wrappers, start-up code, tables and samples are declarations or thin layers over code that is not in the repository.
- Mathematical and console functions, `Print`, `Input` and number formatting are wrappers around the C library.
- `collection`, `dictionary`, `classlist` and the debug call stack would only add easy members.
