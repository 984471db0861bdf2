# A verified model of the DIAL server

The repository is a DIAL server: a small threaded HTTP server (`server/mongoose.c`), a registry of
launchable applications behind it (`server/dial_server.c`), a set of string codecs
(`server/url_lib.c`) and a file of additional data (`server/dial_data.c`). This project models the
four files in Dafny and proves what they are for. To check the project, use
`dafny verify dfyconfig.toml`.

## The parts

- **The worker pool** (`SocketQueue`, `WorkerPool`, `WorkerPoolSafety`, `WorkerPoolTheorems`,
  `WorkerPoolShutdown`). The 20-slot ring is a class over an array; the protocol around it is a step
  system of the thread that owns the context, the master and any number of workers, with the mutex,
  the three condition variables as sleeping and woken program counters, the unprotected accesses to
  `stop_flag` and `num_threads` as steps of their own, failing thread creation and spurious wakeups.
  One invariant, kept by every step, gives first-in-first-out delivery, no lost wakeups, freedom from
  deadlock while serving, an exact thread count and a safe teardown. Shutdown can hang; the project
  proves from which states some schedule hangs, if and only if, which hangs no schedule avoids, and
  that from all other states shutdown completes within a bounded number of steps.
- **Framing** (`RequestHead`, `Connection`). A socket is a stream of bytes that arrives in
  arbitrary pieces and may fail at any time. The head that is found, and the body that any sequence
  of reads returns, do not depend on the pieces; for the head this holds exactly when it has no
  forbidden control byte.
- **Parsing in place** (`Tokenizer`, `HttpHead`, `UriPath`, `HttpServer`). The destructive loops
  over the request buffer are methods on an array, each proved equal to a function on text, with the
  range of bytes it may write. `HeadRoundTrip` and `RequestDelivery` prove that a printed request
  reaches the callback with its fields intact.
- **The DIAL server** (`DialApps`, `DialAnswers`, `DialServer`, `DialRuns`, `DialUris`). `DialServer` has the
  linked list that is edited through pointers to `next` fields, the handlers, the non-recursive
  mutex and the error path that re-enters the request handler while the mutex is held; it is proved
  against the functions of `DialApps`, the callbacks, the written file, the status document and the
  number of acquisitions of the mutex included. `DialAnswers` says of each kind of request when it is
  answered how, in terms of headers, bytes and what the application says. `DialRuns` proves what holds over every sequence of
  requests and every behaviour of the application callbacks, which are arbitrary inputs. `DialService`
  lets any number of threads take the mutex in any order, each for one critical section at a time, and
  concludes the same of one server that serves their requests.
- **Codecs and persistence** (`UrlLib`, `UrlCodec`, `DialData`). `DataLifecycle` follows additional
  data from the post to the file, through any run of requests, to the registration after a restart.
- `RequestDispatch` reads the call and the body from the connection and hands them to the DIAL server;
  `LaunchEndToEnd` follows one launch request from the bytes on the wire to the start callback.

`Bytes` and `Wrappers` hold shared definitions. A C string is a sequence of bytes, and the
predicate `Tokenizer.IsString` says that one stands at an index of a buffer, terminated.

## Where code and intention differ

- `mg_stop` sets `stop_flag`, and the master broadcasts, without the mutex. A worker between its
  test and its wait then sleeps for ever, and so does the master. The master also never looks at the
  flag while it waits for room in a full queue, and `mg_start` does not notice when the master thread
  cannot be created. `ShutdownCanHangExactly` gives the condition, `StragglerIsReal`,
  `FullQueueIsReal` and `MissingMasterIsReal` a reachable state for each of the three hangs. A hang is a
  state in which no thread has a step; the first of the three could still end by a spurious wakeup.
- The comment on `remove_double_dots_and_double_slashes` speaks of excessive slashes; removing a
  component of double dots leaves two of them. `DoubleSeparatorsExactly` gives the exact condition.
- `get_request_len` goes on scanning after a forbidden byte while `read_request` stops there, so
  that a head with such a byte is accepted or refused depending on how it was split.
- The application called `run` cannot be addressed (`AppUriRoutesExactly`), and a hide URI without its
  `run` segment shortens the name (`HideUriWithoutRun`). The handler never looks at the six bytes in front
  of the name of a run or hide URI: any six reach the application (`RunRouteExactly`, `HideRouteExactly`).
- The name in a run or hide URI is copied into 256 bytes without a check of its length, which is negative
  for `/apps/run` (`RunAloneOverruns`). The source overruns its buffer exactly for the URIs that are not
  `DialApps.InRange` (`OverrunsExactly`); the answer `OVERRUN` stands for that, and what the model says of
  the state behind it is of no account.
- `parse_app_name` drops the first byte of a name without a slash in front (`FirstByteIsLost`); it
  returns the segment before the last slash exactly when there are two slashes
  (`AppNameIsSegmentExactly`).
- An empty segment in an origin list ends every origin: the access check refuses nobody exactly when the
  list is empty or has such a segment (`AllowsEveryOriginExactly`, `TwoSpacesAllowAnybody`). A list of 256
  bytes or more is dropped when the application is registered, which is then open to everybody
  (`NewAppAdmitsEverybodyExactly`).
- Host and origin are looked at for starts, stops and preflight requests only; a hide is carried out
  whatever they are (`RefusedExactly`, `HideAnsweredExactly`).
- A stored string that was not URL-encoded is cut off in the status document when its XML encoding is more
  than twice as long, in the middle of an entity if need be (`PlainTextIsShownExactly`).
- A request for the data of an application from the local host replaces the data, whatever its method: a GET
  without a query deletes them and empties the file (`LocalGetClearsData`).
- A client can announce a body length below -1 (`ReadAssertionFailsExactly`, `NegativeLengthArrives`). The
  assertion at the start of a body read then fails, exactly for the requests whose handler reads the body
  (`AbortsExactly`). Any other such request is answered and then dropped from the buffer, and when the
  length reaches back further than the head, the source moves memory in front of the buffer
  (`DiscardStaysInside`, `ServeAndDiscard`).
- A launch whose connection breaks starts the application with the beginning of the body, and is
  answered with 201 (`LaunchEndToEnd.Launch`, `TruncatedLaunch`).
- The size check of `handle_dial_data` behind its bounded read never fails; longer data is cut off.

## Model

| member | source | states |
|---|---|---|
| `SocketQueue.PutAppends` | server/mongoose.c:853-854 | storing a socket at `head % 20` appends it to the queue and keeps the counters in bounds |
| `SocketQueue.TakeRemovesOldest` | server/mongoose.c:778-787 | taking the slot at `tail % 20` and rebasing both counters removes exactly the oldest socket |
| `SocketQueue.Context.Produce` | server/mongoose.c:843-859 | the critical section of the master appends its socket to the queue contents |
| `SocketQueue.Context.Consume` | server/mongoose.c:775-787 | the critical section of a worker, with its rebasing loop, removes the oldest socket and returns it |
| `WorkerPoolSafety.WorkerKeepsInv` | server/mongoose.c:762-840 | every step of a worker keeps the invariant of the pool |
| `WorkerPoolSafety.MasterKeepsInv` | server/mongoose.c:843-908 | every step of the master keeps the invariant of the pool |
| `WorkerPoolSafety.OwnerKeepsInv` | server/mongoose.c:915-960 | every step of starting and stopping keeps the invariant of the pool, thread creation failing or not |
| `WorkerPoolSafety.InvReachable` | server/mongoose.c:762-960 | the invariant holds in every state that some schedule reaches, with any number of workers and any spurious wakeups |
| `WorkerPoolTheorems.MutualExclusion` | server/mongoose.c:762-908 | no two threads are inside a critical section at once |
| `WorkerPoolTheorems.FirstInFirstOut` | server/mongoose.c:762-859 | sockets that were queued are those handed out, in order, followed by those queued; the counters stay between 0 and 40 |
| `WorkerPoolTheorems.AcceptedInOrder` | server/mongoose.c:843-888 | after every run the sockets that `accept` returned are, in order, those that workers took, those in the queue of at most 20, and the one that the master holds while it waits for the mutex or for room |
| `WorkerPoolTheorems.AssertionsHold` | server/mongoose.c:775-850 | the assertions on a non-empty queue, on a free slot and on a non-negative thread count never fail |
| `WorkerPoolTheorems.NoLostWakeup` | server/mongoose.c:767-793 | while a worker sleeps, every queued socket has a signalled worker that has still to look at the queue, or the signal that the master is about to send; between critical sections all of them have still to take the mutex |
| `WorkerPoolTheorems.QueuedSocketHasAnAwakeWorker` | server/mongoose.c:762-793 | with a socket queued and the mutex free, some worker can go on |
| `WorkerPoolTheorems.BlockedProducer` | server/mongoose.c:843-850 | the master sleeps unsignalled on a full queue only, or while the worker that made room is about to signal it; with at most 20 workers none of them sleeps then, unless the pool is stopping |
| `WorkerPoolTheorems.NoDeadlockWhileServing` | server/mongoose.c:796-908 | until it is stopped, the pool is stuck if and only if nobody is there to serve: no worker was started, or no master; with a master and one worker it always has a step, whatever the number of workers |
| `WorkerPoolTheorems.ThreadCountExact` | server/mongoose.c:833-956 | `num_threads` is the number of workers that have still to decrement it, in spite of its unprotected increments, and never negative |
| `WorkerPoolTheorems.TeardownIsSafe` | server/mongoose.c:891-924 | mutex and condition variables are destroyed, and the context is freed, after the last step of every thread that uses them |
| `WorkerPoolTheorems.JoinWaitsForSomebody` | server/mongoose.c:891-896 | the master waits for the workers only while the count is positive or the worker that brought it to zero is about to signal; between critical sections one of them has still to decrement the count |
| `WorkerPoolShutdown.ShutdownHangsExactlyWhenStranded` | server/mongoose.c:888-896 | after the broadcast the pool is stuck if and only if the worker that stood between its test and its wait sleeps and all others have left |
| `WorkerPoolShutdown.NoStragglerNoHang` | server/mongoose.c:888-896 | without such a worker at the broadcast, shutdown always has a next step |
| `WorkerPoolShutdown.ShutdownHangsBeforeBroadcast` | server/mongoose.c:846-849 | before the broadcast a stopping pool is stuck if and only if no worker runs and the master waits on a full queue or was never created |
| `WorkerPoolShutdown.ShutdownCanHangExactly` | server/mongoose.c:846-924 | once the flag is set, some schedule hangs if and only if the master was never created, or it has a socket left for a full queue that nobody will drain, or a worker has passed its test and the broadcast can come before its wait |
| `WorkerPoolShutdown.BroadcastCanHangExactly` | server/mongoose.c:888-896 | at the broadcast some schedule hangs if and only if a worker stands between its test and its wait |
| `WorkerPoolShutdown.DoomedNeverStops` | server/mongoose.c:846-920 | without a master, or with a socket in its hand for such a queue, no schedule ever completes the shutdown |
| `WorkerPoolShutdown.ShutdownCompletes` | server/mongoose.c:762-924 | where no hang is ahead some thread can move until shutdown is complete, and it is after 44 steps for each worker and 17 for the master, and 3 more for each spurious wakeup of the master |
| `WorkerPoolShutdown.StragglerIsReal` | server/mongoose.c:767-920 | a reachable state of one worker from which shutdown can hang behind the broadcast |
| `WorkerPoolShutdown.FullQueueIsReal` | server/mongoose.c:843-920 | a reachable state with 20 sockets behind a slow worker and a 21st accepted, from which shutdown never completes |
| `WorkerPoolShutdown.MissingMasterIsReal` | server/mongoose.c:915-948 | a reachable state without a master, from which shutdown never completes |
| `RequestHead.GetRequestLen` | server/mongoose.c:484-502 | the scanning loop computes the length of the head, -1 for a forbidden byte in an unfinished head, or 0 |
| `RequestHead.RequestLenExactly` | server/mongoose.c:484-502 | in bytes: the head ends behind the first line feed that another one follows, with or without a carriage return between them; without one the answer is -1 if and only if a byte before the last one is below 32, other than 10 and 13, or 127 |
| `RequestHead.HeadIsStable` | server/mongoose.c:484-502 | a positive answer does not change when more bytes arrive |
| `RequestHead.PositiveAnswerIsRight` | server/mongoose.c:574-590 | however the bytes arrive, and even if they stop, a positive length is that of the whole window |
| `RequestHead.CleanHeadFramesAlike` | server/mongoose.c:574-590 | for a head without forbidden bytes every complete way of reading gives the same length |
| `RequestHead.FragmentationIndependence` | server/mongoose.c:484-590 | all ways of splitting the stream give the same answer if and only if the head has no forbidden byte |
| `Connection.Socket.Pull` | server/mongoose.c:375-381 | a receive delivers a prefix of what is pending that fits, as much as the network grants, or fails |
| `Connection.Conn.ReadRequest` | server/mongoose.c:574-590 | the reading loop buffers a prefix of the stream and finds the head of its window |
| `Connection.Conn.Read` | server/mongoose.c:383-431 | a body read returns the next bytes of the body, from the buffer and then the socket, and takes nothing behind the body from the socket; on an unbroken connection as many as asked for and sent, and on any connection as many as the network delivers before a receive brings nothing |
| `Connection.Conn.ReadAll` | server/mongoose.c:383-431 | any sequence of body reads returns the next bytes of the body; on an unbroken connection as many as the sizes add up to, or all that is left |
| `Connection.Conn.Discard` | server/mongoose.c:704-721 | what remains is the buffer from the index on that the source computes, for lengths below -1 too; an index outside the buffered bytes is reported |
| `Connection.Conn.DiscardStaysInside` | server/mongoose.c:704-721 | for lengths from -1 on the index is behind the head and the buffered part of the body; for one below it is inside the buffered bytes if and only if the length, cut to 32 bits, reaches back no further than the head and not past the bytes |
| `Tokenizer.Skip` | server/mongoose.c:218-263 | in place, cuts the word before the first delimiter and finds the next word, writing only between the two |
| `HttpHead.ParseHeadersInPlace` | server/mongoose.c:528-538 | fills as many header slots as there are, up to the first empty name, with the strings that the text contains |
| `HttpHead.ParseRequestInPlace` | server/mongoose.c:547-567 | leaves the strings of the request line and the headers in the buffer, or reports a malformed request; writes nothing outside the text |
| `HeadRoundTrip.PrintedHeadIsFound` | server/mongoose.c:484-502 | the length found for a printed head, followed by any body, is the length of the head, whether its lines end with CRLF or with a line feed |
| `HeadRoundTrip.HeadersParse` | server/mongoose.c:528-538 | printed headers are recovered, the first ones for which there is room, with either line end |
| `HeadRoundTrip.LinesParse` | server/mongoose.c:540-567 | any three words and valid headers are recovered from a printed head if the first word is a method and the third one starts with `HTTP/`, and are malformed otherwise |
| `HeadRoundTrip.RequestRoundTrip` | server/mongoose.c:547-567 | parsing a printed head whose last byte became NUL recovers method, URI, version and headers, with either line end |
| `UriPath.UrlDecode` | server/mongoose.c:454-478 | decoding in place gives the percent-decoding of the original text and changes nothing outside it |
| `UriPath.HexToIIsHexValue` | server/mongoose.c:458-470 | the macro HEXTOI on a lower-case digit is its value, for digits of either case |
| `UriPath.DecodeInvertsEncode` | server/mongoose.c:454-478 | decoding inverts every percent-encoding, with digits of either case, and the form encoding |
| `UriPath.DecodingChangesExactly` | server/mongoose.c:454-478 | decoding leaves a text as it is if and only if no percent sign stands before two hexadecimal digits, and for forms no plus sign stands in it |
| `UriPath.RemoveDoubleDots` | server/mongoose.c:506-524 | the two-pointer loop leaves the cleaned path in place and changes nothing outside it |
| `UriPath.CleaningOnlyRemoves` | server/mongoose.c:506-524 | the cleaned path is a subsequence of the path |
| `UriPath.CleaningKeepsLetters` | server/mongoose.c:506-524 | the bytes other than separators and dots are those of the path, in their order |
| `UriPath.NoDotDotLeft` | server/mongoose.c:504-524 | no separator of a cleaned path is followed by a double dot |
| `UriPath.DoubleSeparatorsExactly` | server/mongoose.c:504-524 | a cleaned path has adjacent separators if and only if the path has an even number of dots, at least two, between two separators |
| `UriPath.ParentOfRootKeepsDoubleSlash` | server/mongoose.c:506-524 | `/../x` becomes `//x` |
| `UriPath.CleaningTwice` | server/mongoose.c:506-524 | a second pass changes nothing if and only if the path had no such component |
| `UriPath.CleanExactly` | server/mongoose.c:506-524 | cleaning changes nothing if and only if no separator is followed by a double dot or another separator |
| `HttpServer.ReadLL` | server/mongoose.c:751-752 | the announced length is the value of the digits behind white space and a sign, clamped to 64 bits |
| `HttpServer.DecimalRoundTrip` | server/mongoose.c:751-752 | a length printed in decimal is read back |
| `HttpServer.EqualsIgnoringCase` | server/mongoose.c:162-174 | two strings are equal up to the case of letters |
| `HttpServer.ReadContentLength` | server/mongoose.c:267-276 | the first header with the name counts; without one the length is -1 |
| `HttpServer.HandleUri` | server/mongoose.c:596-605 | splits off the query, decodes and cleans the path, all inside the bytes of the URI |
| `HttpServer.ServeBuffered` | server/mongoose.c:742-756 | answers 400 or 505, or leaves the call for the application in the buffer; no byte behind the head is written |
| `HttpServer.ProcessRequest` | server/mongoose.c:723-760 | for a clean head and an unbroken connection the outcome is a function of the stream alone; in a callback the head is that of the stream, broken or not, and the body can be read |
| `RequestDelivery.PrintedRequestIsServed` | server/mongoose.c:723-756 | a printed request reaches the callback with its fields, for every way the socket splits the stream and either line end |
| `RequestDelivery.RequestLineDecides` | server/mongoose.c:540-756 | a printable request is served if and only if its method is GET, POST, DELETE or OPTIONS and its protocol HTTP/1.0 or HTTP/1.1; an unknown method or protocol gives 400, another version 505 |
| `RequestDelivery.NoHeadIsServed` | server/mongoose.c:733-740 | without an empty line in what the buffer can hold, the answer is 413 if the buffer is full and has no control character, and otherwise there is none |
| `RequestDelivery.QueryIsSplitOff` | server/mongoose.c:600-604 | the query is what stands behind the first question mark, undecoded, and does not change the path |
| `RequestDelivery.SameNameExactly` | server/mongoose.c:162-174 | two names are the same if and only if their bytes are, or are the same letters in different case |
| `RequestDelivery.FirstHeaderCounts` | server/mongoose.c:267-276 | the header that is found is the first one of that name in letters of any case; none is found if and only if there is none |
| `RequestDelivery.ContentLengthExactly` | server/mongoose.c:751-752 | the announced length is the number in the first header called Content-Length, in letters of any case, and -1 without one |
| `RequestDelivery.NumberIsRead` | server/mongoose.c:751-752 | white space, a sign, the digits of any number and anything behind them are read as that number, or as the nearest one of 64 bits |
| `RequestDelivery.AnnouncedLengthArrives` | server/mongoose.c:751-752 | the length of the body that the client announced is the one the server uses |
| `RequestDelivery.NegativeLengthArrives` | server/mongoose.c:387-388 | a request that announces a length below -1 is served like any other, and the assertion of the first body read fails for it |
| `RequestDelivery.ReadAssertionFailsExactly` | server/mongoose.c:387-388 | the assertion fails if and only if the first Content-Length header is white space, a minus sign and digits for more than 1 |
| `RequestDelivery.ServeAndDiscard` | server/mongoose.c:704-758 | over a connection, a served request that announces -n is dropped from inside the buffer if and only if n is not greater than the length of its head |
| `RequestDelivery.EncodedPathArrives` | server/mongoose.c:596-605 | a percent-encoded path arrives cleaned, and unchanged if it needs no cleaning |
| `UrlLib.SmartStrCat` | server/url_lib.c:33-40 | appends at most `max_chars` bytes, terminates, and returns the end |
| `UrlLib.XmlEncode` | server/url_lib.c:87-119 | writes exactly the first `max_size` bytes of the full encoding and a terminator |
| `UrlLib.XmlRoundTrip` | server/url_lib.c:87-119 | the encoding stands for the original text, section 4.6 of XML 1.0 |
| `UrlLib.XmlTextHasNoMarkup` | server/url_lib.c:87-119 | the encoding contains no angle bracket and no quote |
| `UrlLib.ParseAppName` | server/url_lib.c:121-137 | the two backward searches give the segment before the last slash, or `unknown` |
| `UrlLib.AppNameRecovered` | server/url_lib.c:121-137 | the name is recovered from every URI of the documented form |
| `UrlLib.AppNameIsSegmentExactly` | server/url_lib.c:121-137 | the name is the segment before the last slash if and only if the URI has two slashes |
| `UrlLib.FirstByteIsLost` | server/url_lib.c:121-137 | without a slash in front the first byte of the name is dropped |
| `UrlLib.NoNameIsUnknown` | server/url_lib.c:121-128 | without a slash behind the first byte the name is `unknown` |
| `UrlCodec.UrlDecodeInto` | server/url_lib.c:65-85 | decodes at most `max_size` bytes and returns their number, or 0 for a malformed escape with what was decoded before it left behind |
| `UrlCodec.AppendCharFromHex` | server/url_lib.c:42-63 | the range tests and the arithmetic cut to `char` write the byte whose two hexadecimal digits are given, of either case, or nothing |
| `UrlCodec.DecodersAgreeWhenWellFormed` | server/url_lib.c:65-85 | on a well-formed text the bounded decoder gives a prefix of what the in-place decoder gives |
| `UrlCodec.DecodersAgreeExactly` | server/url_lib.c:65-85 | the two decoders agree on a text if and only if every percent sign starts an escape |
| `UrlCodec.UrlEncode` | server/url_lib.c:203-223 | the encoding fits the allocated three bytes per byte and a terminator |
| `UrlCodec.EncodedSizeBound` | server/url_lib.c:203-223 | the encoding is at most three times as long |
| `UrlCodec.EncodingChangesExactly` | server/url_lib.c:203-223 | a text is its own encoding if and only if it has only letters, digits, and the marks `-`, `_`, `.`, `~` |
| `UrlCodec.UrlRoundTrip` | server/url_lib.c:65-223 | decoding an encoded text with any bound returns that many bytes of it |
| `UrlCodec.UrlDecodeXmlEncode` | server/dial_server.c:92-97 | what the status document shows for a stored string |
| `UrlCodec.EncodedParameterIsShownWhole` | server/dial_server.c:92-97 | for a string that was URL-encoded the bound never cuts, and the document stands for the original |
| `UrlCodec.PlainTextIsShownExactly` | server/dial_server.c:206-212 | a string that was not URL-encoded is shown whole if and only if its XML encoding is at most twice as long, and is cut there otherwise |
| `DialData.ParseParams` | server/url_lib.c:160-183 | the token loop builds the list of the pairs of a query, last pair first |
| `DialData.QuestionMarkIsSkipped` | server/url_lib.c:160-183 | a question mark in front of the query, and ampersands behind it, do not change the list |
| `DialData.NoPairsExactly` | server/url_lib.c:161-168 | a query has no pairs if and only if it has at most two bytes, or nothing but ampersands behind a question mark that it may start with |
| `DialData.TokenScansExactly` | server/url_lib.c:169-173 | a token without an equals sign has only a key, one that starts with it neither key nor value; the missing ones are the memory that was there |
| `DialData.ValueScansExactly` | server/url_lib.c:169-173 | the value is the first word behind the equals sign, white space in front of it skipped; without one it is the memory that was there |
| `DialData.StoreDialData` | server/dial_data.c:53-65 | the file has one line per pair, in the order of the list, whatever memory that `sscanf` left unset holds |
| `DialData.RetrieveDialData` | server/dial_data.c:67-88 | reads pairs of words of at most 255 bytes, last pair first |
| `DialData.LoneKeyRepeatsValue` | server/dial_data.c:74-85 | a key without a value at the end of the file gets the value of the pair before it, or what the memory of the variable holds |
| `DialData.StoreThenRetrieveExactly` | server/dial_data.c:53-88 | no pair is unset memory and reading the stored list back reverses it, if and only if every word is non-empty, free of white space and at most 255 bytes long |
| `DialData.TwoCyclesAreIdentity` | server/dial_data.c:53-88 | two cycles through the file restore the list |
| `DialData.PostThenReload` | server/url_lib.c:160-183 | the list in memory reverses the query; the reloaded list has the order of the query |
| `DialApps.UnregisteredExactly` | server/dial_server.c:683-701 | the first application of that name goes, and all others keep their order |
| `DialApps.RelaunchComparesBodies` | server/main.c:187-193 | the bounded comparison of the zero-padded arrays is equality of the bodies |
| `DialApps.AbortsExactly` | server/mongoose.c:387-388 | the assertion of a body read fails if and only if the length is below -1 and the handler reads: an admitted start or a local post of data, for a registered application |
| `DialApps.OverrunsExactly` | server/dial_server.c:524-526 | a buffer is overrun if and only if the name in a run or hide URI has a negative length or more than 255 bytes |
| `DialRuns.RequestIsConfined` | server/dial_server.c:504-625 | a request changes at most the application that it names, never its name or origin list |
| `DialRuns.RunKeepsRegistry` | server/dial_server.c:504-625 | no sequence of requests changes which applications are registered, or their order |
| `DialRuns.StopCallExactly` | server/dial_server.c:275-304 | the stop callback runs exactly for a DELETE answered 200, after the status callback reported another state than stopped |
| `DialRuns.StopCallsInRun` | server/dial_server.c:275-304 | over every run there are as many stop callbacks as DELETE requests answered 200 |
| `DialRuns.StateAfterSuccess` | server/dial_server.c:275-342 | a 200 to a stop or hide request leaves the application stopped or hidden |
| `DialRuns.PayloadStep` | server/dial_server.c:155-168 | the payload changes only by a start answered 201, to the body of that start |
| `DialRuns.PayloadIsLatestStart` | server/dial_server.c:155-168 | after every run the payload is the body of the latest start answered 201 |
| `DialRuns.RelaunchIsExact` | server/main.c:187-193 | after every run the relaunch decision is false exactly for the body of the latest start answered 201 |
| `DialUris.RunUriRoutes` | server/dial_server.c:524-530 | the run URI of an application reaches it |
| `DialUris.RunRouteExactly` | server/dial_server.c:522-526 | a URI reaches an application as its run URI if and only if the name and `/run` stand behind any six bytes and the name fits; it is the run URI of that application if and only if it begins with `/apps/` |
| `DialUris.AppUriRoutesExactly` | server/dial_server.c:550-554 | the URI of an application reaches it if and only if the name is not `run` |
| `DialUris.AppRouteExactly` | server/dial_server.c:550-554 | a URI is that of an application if and only if it is `/apps/` and a name without slash other than `run` |
| `DialUris.HideUriRoutes` | server/dial_server.c:579-583 | the hide URI behind the run segment reaches the application |
| `DialUris.HideUriWithoutRun` | server/dial_server.c:579-583 | without that segment the name loses its last four bytes |
| `DialUris.HideRouteExactly` | server/dial_server.c:575-580 | a URI reaches an application as its hide URI if and only if the name stands behind any six bytes, four bytes and `/hide` follow, and the name fits; it is the hide URI of that application if and only if these are `/apps/` and `/run` |
| `DialUris.DataUriRoutes` | server/dial_server.c:597-603 | the data URI of an application reaches it |
| `DialUris.DataRouteExactly` | server/dial_server.c:596-603 | every other URI is about additional data if and only if `/dial_data` stands anywhere in it |
| `DialUris.ListScanIsExact` | server/dial_server.c:412-447 | the scan finds exactly the space-separated segments that end the origin |
| `DialUris.AllowsEveryOriginExactly` | server/dial_server.c:459-479 | for a registered application the access check admits every origin if and only if its list is empty or has an empty segment; otherwise some origin that is checked is refused |
| `DialUris.NewAppAdmitsEverybodyExactly` | server/dial_server.c:671-675 | a newly registered application admits every origin if and only if it was given no list, one of 256 bytes or more, or one with an empty segment |
| `DialUris.TwoSpacesAllowAnybody` | server/dial_server.c:412-447 | two spaces between two hosts open the list to every origin |
| `DialAnswers.AdmittedExactly` | server/dial_server.c:449-479 | host and origin admit a request if and only if there is a host header, and the last origin header, if it begins with `http` or `file`, ends with a segment of the list of the application, or that has no list |
| `DialAnswers.LocksExactly` | server/dial_server.c:449-479 | the mutex is taken once for a guarded request whose origin has to be looked up, and once in a handler |
| `DialAnswers.RefusedExactly` | server/dial_server.c:486-564 | a stop, a start or a preflight request is answered 403, with nothing changed and nothing called, if and only if host and origin do not admit it; an admitted preflight request is answered 204 |
| `DialAnswers.StartAnsweredExactly` | server/dial_server.c:117-176 | an admitted start is answered 201 if and only if the application is registered, at most 4096 bytes arrived, all between 32 and 126, and the callback says that it runs; and if and only if one start callback ran with these bytes and the application runs with them as its payload. 404, 413, 400 and 503 stand for exactly the other cases, and the first three change and call nothing |
| `DialAnswers.StopAnsweredExactly` | server/dial_server.c:275-304 | an admitted stop is answered 200 if and only if the application is registered and does not say that it is stopped; a registered one is stopped afterwards in any case |
| `DialAnswers.HideAnsweredExactly` | server/dial_server.c:306-342 | a hide, whatever its origin, is answered 200 if and only if the application is registered, runs or is hidden already, and its callback hides it; 501 and 404 stand for exactly the other cases, with the callbacks made and the state left |
| `DialAnswers.StatusAnsweredExactly` | server/dial_server.c:178-273 | the status document of a registered application shows the state that it says it is in, a hidden one as stopped to a client below 2.09, and a link unless it is shown as stopped |
| `DialAnswers.DataAnsweredExactly` | server/dial_server.c:344-398 | of a data request from the local host the first 4096 bytes count, of the body of a POST and of the query otherwise; 404, 400 and 200 stand for exactly an unregistered application, a byte outside 32 to 126, and the rest |
| `DialAnswers.OthersAnswered` | server/dial_server.c:537-616 | all other requests change and call nothing: 501 for other methods, 403 for data requests from elsewhere, 404 for other URIs |
| `DialServer.Server.Lock` | server/dial_server.c:70-72 | the mutex is taken only while it is free |
| `DialServer.Server.Unlock` | server/dial_server.c:74-76 | the mutex is released only while it is held |
| `DialServer.Server.FindApp` | server/dial_server.c:80-90 | the link to the first application of that name, or the last link |
| `DialServer.Server.Register` | server/dial_server.c:651-681 | appends a stopped application with the data of its file, unless the name is taken |
| `DialServer.Server.Unregister` | server/dial_server.c:683-701 | removes exactly the application of that name; all others keep their order |
| `DialServer.Server.GetPayload` | server/dial_server.c:703-717 | called with the mutex held, returns the padded body of the latest start |
| `DialServer.Server.StartCallback` | server/main.c:187-193 | the decision made inside the start callback is that of the specification |
| `DialServer.CheckPayload` | server/dial_server.c:103-115 | finds a byte that is a control character, DEL or above 127; without one there is no NUL |
| `DialServer.Server.HandleStart` | server/dial_server.c:117-176 | refines the specification of a start, of which `DialAnswers.StartAnsweredExactly` says what it means, with the mutex taken and released once |
| `DialServer.Server.HandleStatus` | server/dial_server.c:178-273 | refines the specification of a status request and its document, early return included, with the mutex taken and released once |
| `DialServer.StatusData` | server/dial_server.c:202-224 | the loop over the additional data appends the elements, cut off at the size of the buffer |
| `DialServer.Server.HandleStop` | server/dial_server.c:275-304 | refines the specification of a stop, with the mutex taken and released once |
| `DialServer.Server.HandleHide` | server/dial_server.c:306-342 | refines the specification of a hide, with the mutex taken and released once |
| `DialServer.Server.HandleDialData` | server/dial_server.c:344-398 | refines the specification of a data request, the written file and the early returns included, with the mutex taken and released once |
| `DialServer.ScanList` | server/dial_server.c:412-447 | the loop over the list of origins decides membership of a matching segment |
| `DialServer.Server.ScanOrigins` | server/dial_server.c:465-476 | the scan over all applications equals one lookup |
| `DialServer.Server.IsAllowedOrigin` | server/dial_server.c:459-479 | the decision on the origin; the mutex is taken and released once for an origin that has to be checked, and otherwise not at all |
| `DialServer.Server.SendHttpError` | server/mongoose.c:286-315 | the error path returns with nothing changed, whether or not the mutex is held |
| `DialServer.Server.Printf` | server/mongoose.c:437-447 | an answer that is cut off is logged through the request handler, with nothing changed, whether or not the mutex is held |
| `DialServer.FindHeaders` | server/dial_server.c:510-518 | the last of several host or origin headers counts |
| `DialServer.MatchesAt` | server/dial_server.c:522-523 | the bounded comparison of a literal with an end of the URI |
| `DialServer.StrNCpy` | server/dial_server.c:524-526 | the byte loop into zeroed memory leaves the string of the bytes copied, terminated, for a length that leaves room |
| `DialServer.ResolveUri` | server/dial_server.c:521-598 | the comparisons, searches and copies on the URI, in their order, find the route of the specification; for a name that does not fit the buffer that is `Overrun` |
| `DialServer.Server.RequestHandler` | server/dial_server.c:504-625 | answers every request as specified, which the theorems of `DialAnswers` spell out, with the specified number of acquisitions of the mutex, and leaves it as it was; for a log event it may be entered with the mutex held |
| `DialService.GateIsStable` | server/dial_server.c:459-479 | what a request is told about its host and origin is the same at any time between requests of others |
| `DialService.CarriedIsServed` | server/dial_server.c:117-398 | the handler of a request, whenever it gets the mutex, does to the applications as it finds them what the whole request would do then |
| `DialService.InterleavingIsSerial` | server/dial_server.c:459-625 | every order in which threads get the mutex, each for one critical section at a time, leads where serving the requests one after the other in the order of their handlers leads |
| `DialService.TwoMovesAreTheHandler` | server/dial_server.c:504-625 | a thread whose two sections follow each other does what the request handler is specified to do |
| `DialService.TwoTurnsAnswer` | server/dial_server.c:459-625 | a request is answered when its thread got the mutex twice, whatever the others do |
| `DialService.InterleavingCountsStops` | server/dial_server.c:275-304 | in every such order the number of stop callbacks is the number of DELETE requests answered 200 |
| `DialService.ServeAll` | server/dial_server.c:504-625 | threads get the mutex in any order, each for its next critical section: applications, answers, files, callbacks and acquisitions of the mutex are those of the requests carried out so far, served one after the other in the order of their handlers, and a thread that gets its turn twice has its answer |
| `DialService.ServeLawfully` | server/dial_server.c:155-304 | whatever that order, the server has invoked one stop callback for each DELETE answered 200, and each application has the body of its latest successful start as its payload |
| `DataLifecycle.PostIsStored` | server/dial_server.c:344-398 | a request of the application that posts pairs, or sends them as the query of another method, replaces its data by the reversed list and writes them to its file |
| `DataLifecycle.RequestLeaves` | server/dial_server.c:344-398 | a request replaces the data and the file of an application if and only if it is such a request; every other request leaves both as they are |
| `DataLifecycle.DataIsLatestWrite` | server/dial_server.c:344-398 | after every run of requests the data of an application are those of the latest such request, and its file holds the same list |
| `DataLifecycle.LocalGetClearsData` | server/dial_server.c:606-609 | a GET of the data URI from the local host without a query is answered 200, deletes the data and empties the file |
| `DataLifecycle.PostSurvivesRestart` | server/dial_data.c:53-88 | posted pairs are what the application has when it is registered with a new server, in the order of the query, unless a later request for its data from the local host, other than OPTIONS and with a text that passes the checks, replaced them |
| `DataLifecycle.EncodedPairIsShownWhole` | server/dial_server.c:206-224 | a pair of URL-encoded strings stands in the status document in full, XML-encoded |
| `DataLifecycle.PostIsShown` | server/dial_server.c:202-272 | URL-encoded pairs that were posted stand in the next status document XML-encoded, last pair first, and whole if and only if they fit its buffer |
| `RequestDispatch.Receive` | server/mongoose.c:723-760 | a connection ends in no call or in the request that its head asks for, with what was read of a posted body, or nothing where the assertion of the read fails; when the head comes first, how much was read is computed from the behaviour of the network |
| `RequestDispatch.Reply` | server/mongoose.c:125-129 | the DIAL server answers every such request as specified |
| `LaunchEndToEnd.AddressableExactly` | server/mongoose.c:506-524 | the path of an application whose name has no separator is left as it is by the path cleaner if and only if the name does not begin with two dots |
| `LaunchEndToEnd.AppUriArrivesExactly` | server/mongoose.c:596-605 | the percent-encoded URI of an application arrives as its path if and only if the cleaner leaves that path as it is |
| `LaunchEndToEnd.BareRequestIsServed` | server/mongoose.c:723-756 | a request for such a URI without headers and with one of the four methods reaches the callback |
| `LaunchEndToEnd.RunAloneOverruns` | server/dial_server.c:522-526 | a request for `/apps/run` reaches the callback, and its URI is one for which the buffer of the name is overrun |
| `LaunchEndToEnd.LaunchIsServed` | server/mongoose.c:723-756 | a launch request for any name that the path cleaner leaves alone, percent-encoded, reaches the callback intact, with the length it announces, for every way the socket splits it |
| `LaunchEndToEnd.NegativeLaunchIsServed` | server/mongoose.c:751-756 | so does a launch that announces a negative length, for which the first body read fails |
| `LaunchEndToEnd.NegativeLaunchIsNegative` | server/mongoose.c:751-756 | a launch that announces such a length is one of the requests that are dropped from in front of the buffer when it reaches back further than the head |
| `LaunchEndToEnd.ReceivePosted` | server/mongoose.c:383-431 | any printed POST request is delivered with all of its body that fits the buffer, or, when the connection breaks, nothing or the beginning of the body; when the head comes first, how much is computed from the behaviour of the network |
| `LaunchEndToEnd.ReceiveLaunch` | server/mongoose.c:383-431 | the same for a launch |
| `LaunchEndToEnd.LaunchStarts` | server/dial_server.c:504-564 | the request handler takes a launch for a start with what was read, and takes the mutex once |
| `LaunchEndToEnd.Launch` | server/dial_server.c:117-176 | from the bytes on the wire: the application is started with what was read of the body, which becomes its payload and is answered with 201; on an unbroken connection that is the posted body, and one of more than 4096 bytes is refused with 413 |
| `LaunchEndToEnd.TruncatedLaunch` | server/mongoose.c:419-429 | for every beginning of a body, and every size of the request buffer that takes the head, there is a behaviour of the network with which it is read, becomes the payload and is answered with 201 |

## Left out

- `main/*.cpp`: the same algorithms with Win32 sockets; tray, plugin and dialog are user interface.
- `server/quick_ssdp.c`, `server/LinuxInterfaces.c`, `server/nf_callbacks.c`, processes and signals: I/O. Application callbacks are arbitrary inputs.
- Socket setup, sending, printf formatting, log output: a response is a status code, and for a status request the fields of the document. The terminator that the source writes one byte past its full status buffer is not modelled.
- Tokenizer.Skip: models only the quote character 0, which every call passes; `Tokenizer.LastByteIsNoQuote` is why the quote loop is never entered then.
- WorkerPool: the queue update of a critical section is one step, since nothing reads the queue without the mutex; memory is sequentially consistent.
- Integer widths: buffer sizes and counters are unbounded integers. The ring counters are proved bounded, and the announced length is clamped to 64 bits as `strtoll` does.
- Connection.Conn.Read: requires a content length of at least -1, as the assertion of the source does; `DialApps.AbortsExactly` says when that assertion is reached.
- Connection.Conn.Discard: what the source moves when the index is outside the buffered bytes is not in the model.
- HttpServer.ProcessRequest: stops before the callback; a connection carries one request, because resetting the request drops what was buffered.
- DialServer.Server.RequestHandler: what the source does after it overran the buffer of a name is not in the model; `clientDialVer` is given as a comparison with 2.09, because the version is a floating-point number.
- DialService.ServeAll: applications are registered before the server is started, as `server/main.c:281-283` does; a registration between the two critical sections of a request is not among the steps.
- RequestDispatch.Receive: reads the body of a posted request before the handler runs, not inside it; the handler finds the same bytes.
- DialServer.Server.HandleDialData: a file is named by its application; paths, and a file that cannot be opened, are not modelled, and the list is a sequence, so that its nodes and their release are not captured.
- DialServer.Server.Unregister: removes the node from the list; releasing its memory is not captured.
- `parse_param`, the additional-data URL and the Location header: formatting only.
- Raw allocation details: missing terminators in `retrieve_dial_data` and the uninitialised payload, which is modelled as absent.
