# HelixRack, modelled and proved

HelixRack is a single-threaded HTTP/1.1 server: a Rust engine that buffers, parses and
answers pipelined requests on each connection, under a Ruby extension that runs a Rack
application, watches over its time slice, spools large bodies and shuts down gracefully.
This project models its stateful cores and proves what they keep over every input, every
run and every interleaving. `dafny verify dfyconfig.toml` checks all of it.

## The connection loop

`Connection` says the same thing twice. `Serve` is what the server owes to a whole input,
request by request, with no buffer in it. `Run` is the loop of `connection.rs` as a
function of the buffer's state (where the unanswered input begins, how much is buffered,
the capacity, the reads done so far) and of an arbitrary oracle of arrivals: every read
may bring any number of octets, come too late, or fail. `Engine.Handle` is the loop
itself, over a real array that is resized, read into and shifted in place, and is proved
to end exactly as `Run` does, with the in-flight counter back where it was on every path.

* **Segmentation.** How the input is cut into reads makes no difference *if and only if*
  the input is `Clear`: no head still undecided after 64 KiB becomes decided within a
  buffer that an earlier request's body has stretched further (the read at the bottom of
  the loop fills all leftover capacity, and the cap is checked only before the next one).
  The comment above that check promises that the cap holds for the rest of the connection;
  the code keeps that promise on clear input only. `Dependence` exhibits one client
  (a 70000-octet body, then a 66 kB head) that is not clear for any handler.
* **Sync.** A client that reads responses after section 6.3 of RFC 9112, and knows which of
  its requests were HEAD, recovers every status, header and body of every run, however the
  run ends. It has a length reader of its own (digits only, or a list that repeats one
  length), reads values without the blanks around them, and never sees the handler's
  Connection fields, which may be anything. For one response sync holds *if and only if* the
  handler's framing is true. Two ways to lose it that the code does not prevent: a 204 or 304
  with a body is sent with it, and a length such as "+5", which the server itself would take
  from a client, is sent as it is.
* **Round trip.** `Exchange` puts both ends together: well-formed requests written one
  after the other reach the handler as they were meant (method, headers, body, and the target
  cut at its first question mark), and the replies come back decoded, with the whole body
  unless the client, by its own test, asked for the head alone. `Greeting` is one such
  connection octet for octet.
* **Ends.** `Refusals` says which turn ends a connection how: the 64 KiB cap and the 431, the
  10 MiB cap and the 413, the 400, the silent ends, and that only a client idle between
  requests is timed out. `BrokenPeer` says that a peer that breaks off has been sent exactly
  the first octets of what a patient one would have been.
* **Lifecycle.** The quota of keep-alive requests, the growth of the buffer, the pairing of
  in-flight guards, and, on every input, that an idle timeout never strikes with unanswered
  octets held: the run is the one a client would have had by closing there. The buffer stays
  within one head and one body on every run whose accepted heads are within the head cap,
  which clear input and octet-by-octet arrival each ensure.
  The documentation of `handle` says a request is in flight from just before the handler is
  called; the code begins at the parsed head, and the model follows the code.

The text operations the server leans on have their meaning in `TextLaws`: valid UTF-8 is
what encodes some Unicode scalar values, trimming takes exactly the white-space characters
at both ends, and a Content-Length value declares n exactly when it is a numeral for n with
white space around it.

The head parser is a small stand-in, proved prefix-stable and exact (a head is recognised
at its last octet, not before), and to recognise plain heads only, each as what was written. The handler is any function of all the requests it has
ever been given. Peers may break the connection after any number of octets; spool files
may refuse their length or fail at any offset.

## The concurrent protocols

`Watchdog` and `Drain` are transition systems over every interleaving of the steps between
synchronization points, with the clock, timeouts and spurious wakeups as steps of their own.
Both carry an inductive invariant (no lost wakeup) and ranking arguments (an overdue request
is fired for; shutdown stops the watchdog; drain ends once nothing is in flight or time is
up). Times are tied to the runs: a request's deadline is its slice from when it was begun, a
timed wait ends later than the deadline only by as long as the thread took from its look at
the clock to parking, and a request is cut off at teardown only when the whole grace period
has passed since the shutdown was noticed. The watchdog's `shutdown` relies on the RAII discipline: `EarlyShutdownHangs` shows that
shutting down while a fired-for request is still armed leaves the thread waiting for ever,
because `shutdown` does not bump the generation, and `HangIsReached` that six steps from the
start lead there.

## Response bodies and signal traps

`Spool` is the body accumulator with its threshold and reentrancy flag. The collection is the
concatenation of the chunks *if and only if* no file write failed: `spool_chunk` raises such a
failure inside the application's `#each`, and an application that rescues it goes on with
octets missing. `BodyPath` carries the result on to the client. `Traps` is the chain of signal
handlers under any overlap of `serve` calls: every running server is told of a signal, exactly
once, and the original handlers are restored *if and only if* no two calls ever overlapped
(the comment in `helix_rack.rb` says that after overlap the newer trap "or whatever it restores"
stays; a finished server's trap can be what stays).

## Model

| member | source | states |
|---|---|---|
| Bytes.DecimalRoundTrip | engine/src/connection.rs:513-515 | a length printed as the engine prints it trims and parses back to that length, for every usize |
| TextLaws.ValidMeaning | engine/src/connection.rs:261-268 | octets are valid exactly when they are the UTF-8 encoding of some Unicode scalar values |
| TextLaws.TrimsPadding | engine/src/connection.rs:314 | white space on both sides of a text that has none at its ends is all that trimming takes off |
| TextLaws.TrimSplits | engine/src/connection.rs:314 | every text is its trimmed form, with nothing but white space before and after |
| TextLaws.SameLetter | engine/src/connection.rs:428 | ignoring case, octets are the same exactly when equal or the two cases of one ASCII letter |
| TextLaws.PaddedName | engine/src/connection.rs:494-497 | names are found as Connection or as framing whatever white space surrounds them, and no other names are |
| TextLaws.ParseMeaning | engine/src/connection.rs:433-435 | exactly the numerals below the usize limit are read, with zeros and one plus sign allowed in front, each as its number |
| TextLaws.DeclaredMeaning | engine/src/connection.rs:431-435 | a Content-Length value declares n exactly when it is such a numeral for n with any white space around it |
| HeadParser.ParseStable | engine/src/connection.rs:188-197 | a verdict of the head parser, complete or error, is the same however many more octets follow |
| HeadParser.ParseExact | engine/src/connection.rs:188-197 | a head is complete exactly from its last octet on, with the same length and contents |
| ContentLength.ReadContentLength | engine/src/connection.rs:425-448 | the loop over the headers returns n iff every Content-Length field is valid UTF-8, trims and parses to n, and n is 0 when there is none; otherwise it is an error |
| ContentLength.LengthOfMeaning | engine/src/connection.rs:425-448 | the fold that specifies the loop means just that, both ways |
| ContentLength.LengthIgnoresOrder | engine/src/connection.rs:418-448 | the declared length, or the error, does not depend on the order of the headers |
| Io.Socket.Read | engine/src/connection.rs:231-238 | a read fills a non-empty window with the next octets of the input, 0 only at its end, and may be late or fail |
| Io.Socket.WriteAll | engine/src/connection.rs:219 | everything is sent, or the peer's limit is reached and exactly that much was |
| Io.SpoolFile.Read | engine/src/connection.rs:637 | any short count from the current position, 0 only at the end, or a failure at the file's broken offset |
| Responses.StripsOne | engine/src/connection.rs:312-314 | a header is dropped exactly when its name trims to Connection, ignoring case |
| Responses.StripsHeaderwise | engine/src/connection.rs:312-314 | every header is judged by itself, and those kept keep their order and repetitions |
| Responses.HandlerResponse.StripConnection | engine/src/connection.rs:312-314 | the loop leaves exactly the headers kept so, in place |
| Responses.HandlerResponse.EnsureFraming | engine/src/connection.rs:493-517 | framing headers are left alone; without any, Content-Length with the body's length is added, or the headers are unchanged and it fails when a spool file's length cannot be had |
| Responses.HandlerResponse.SerializeHead | engine/src/connection.rs:525-543 | the head's octets: status line with reason phrase, the headers in order, a blank line |
| Responses.HandlerResponse.WriteBody | engine/src/connection.rs:618-645 | the rewind-and-stream loop, with any short reads and any file position on entry, sends what one write of the body would send, up to a broken socket or file |
| Responses.HandlerResponse.WriteSplit | engine/src/connection.rs:602-609 | head then body in separate writes send one image |
| Responses.HandlerResponse.WriteCombined | engine/src/connection.rs:579-595 | the combined write sends that same image |
| Responses.PutTwice | engine/src/connection.rs:579-609 | writing two parts one after the other sends and fails exactly as writing them at once |
| Connection.SplitTarget | engine/src/connection.rs:253-257 | path and query are the parts before and after the first question mark; the query is empty without one |
| Connection.RequestOf | engine/src/connection.rs:253-277 | a call carries the head's method and headers and the body, a path without a question mark, and target == path?query, or the target as path and an empty query |
| Connection.Answer | engine/src/connection.rs:253-364 | an answered request is counted, at most one call is recorded, which says what the client sent, and the loop goes on only below max_keepalive; stopping has one of four reasons |
| Connection.Due | engine/src/connection.rs:188-239 | what is owed to the first request of an input, or how the connection ends, adds to the history and eats at least the head |
| Connection.Fill | engine/src/connection.rs:230-239 | body reads stop exactly at the body's end, or at the end of the input or a failed read short of it |
| Connection.Step | engine/src/connection.rs:178-415 | each turn of the loop keeps the state sound, only ever adds to the history, and answers input or reads some |
| Connection.Run | engine/src/connection.rs:163-416 | the whole loop terminates on every finite input with a sound state and a history extending the one before |
| Refusals.UndecidedTurn | engine/src/connection.rs:373-414 | with an undecided head: 431 from 64 KiB on, else a failed read, else a timeout exactly for a late client with nothing buffered, else end of input, else more is read, into a buffer doubled up to the cap when it was full |
| Refusals.MalformedTurn | engine/src/connection.rs:188-191 | a malformed head ends the connection without a word |
| Refusals.RefusedTurn | engine/src/connection.rs:193-221 | a bad length ends it without a word, one above 10 MiB with the 413 before anything is read or made room for, and no other is refused so |
| Refusals.CutBodyTurn | engine/src/connection.rs:230-239 | a body the input has not got in full ends it without a word or a call |
| Refusals.UntextualTurn | engine/src/connection.rs:259-269 | a header value that is not UTF-8 is answered with the 400 and no call, and only that is |
| Refusals.UnframeableTurn | engine/src/connection.rs:493-512 | a spooled response without framing of its own whose length cannot be had is not sent at all, and nothing follows |
| Refusals.BrokenFileTurn | engine/src/connection.rs:493-512 | a response whose file fails is sent up to there, and nothing follows |
| BrokenPeer.SentIsPrefix | engine/src/connection.rs:163-416 | with a peer that takes only so many octets a run is the patient peer's until the limit, its write fails exactly when there was more, and what was sent is the first octets of the whole |
| Segmentation.WindowVerdict | engine/src/connection.rs:373-383 | where the buffered octets decide a head, the first 64 KiB decide it alike, when within the cap or on clear input |
| Segmentation.StepMeetsDue | engine/src/connection.rs:178-415 | one turn of the loop does what is due to the first request, and keeps capacity tied to the longest request so far |
| Segmentation.RunMeetsServe | engine/src/connection.rs:163-416 | on clear input every run makes the calls and sends the octets of the unbuffered reference, and ends alike; cut short by a timeout or failed read it has done a beginning of that |
| Segmentation.SlowMeetsServe | engine/src/connection.rs:163-416 | octet by octet, every input whatever meets the reference |
| Segmentation.RushDiffers | engine/src/connection.rs:394-414 | on unclear input, a client that hurries at the critical head causes a different history |
| Segmentation.ClearIsIndependent | engine/src/connection.rs:163-416 | on clear input all prompt segmentations show the same calls and octets, also to a peer that breaks off |
| Segmentation.SegmentationIndependence | engine/src/connection.rs:163-416 | all prompt segmentations show the same calls and octets if and only if the input is clear |
| Dependence.StretchedIsUnclear | engine/src/connection.rs:226-229 | any answered request longer than a following oversized head makes the outcome depend on segmentation |
| Dependence.SegmentationMatters | engine/src/connection.rs:373-414 | one concrete client for which it does, whatever is answered from memory |
| Lifecycle.StepCounts | engine/src/connection.rs:214-364 | each turn begins one guard and answers one request, or ends the connection with its guards accounted for |
| Lifecycle.KeepAliveLimit | engine/src/connection.rs:327-364 | in every run at most max_keepalive requests (at least one) are answered, that one is the last, and guards match answers but for a last request cut short |
| Lifecycle.StepGrowth | engine/src/connection.rs:226-229 | a turn never shrinks the buffer and grows it to the head cap or to one head with one body |
| Lifecycle.BufferBound | engine/src/connection.rs:384-392 | in every run the buffer stays within the head cap plus one body cap per accepted request |
| Lifecycle.HeadsBufferBound | engine/src/connection.rs:218-229 | it stays within one head cap plus one body cap in every run whose accepted heads are each within the head cap |
| Lifecycle.ClearHeadsWithin | engine/src/connection.rs:373-383 | accepted heads are within the cap on clear input, however it arrives |
| Lifecycle.SlowHeadsWithin | engine/src/connection.rs:373-383 | they are within the cap on every input that arrives octet by octet |
| Lifecycle.ClearBufferBound | engine/src/connection.rs:218-229 | the bound therefore holds for clear input |
| Lifecycle.DueOfPrefix | engine/src/connection.rs:366-370 | an answered request is due alike to the input cut anywhere after it |
| Lifecycle.StepClosing | engine/src/connection.rs:178-415 | a turn that takes nothing beyond some point of the input goes alike when the client closes there |
| Lifecycle.IdleTimeoutLosesNothing | engine/src/connection.rs:394-406 | on every input an idle timeout strikes with nothing buffered, and the whole run is, to the state and history, the one in which the client closes there instead |
| Lifecycle.IdleTimeoutServed | engine/src/connection.rs:394-406 | on clear input it leaves what the unbuffered reference owes to the requests answered |
| Engine.ConnectionCounter.RecordRequestStart | engine/src/lib.rs:126-128 | the counter goes up by one, wrapping at usize |
| Engine.ConnectionCounter.RecordRequestFinish | engine/src/lib.rs:134-137 | the counter goes down by one, wrapping at usize |
| Engine.Resize | engine/src/connection.rs:227-229 | a longer buffer that begins with the old one's contents |
| Engine.ReadMore | engine/src/connection.rs:231-238 | after a read the buffer holds the input from the request's start as far as it was taken |
| Engine.FillBody | engine/src/connection.rs:230-239 | the body loop ends as its specification does, with the buffer still holding the input |
| Engine.BufferBody | engine/src/connection.rs:226-239 | room is made for the request and the buffer still holds the input |
| Engine.ReparseAgreement | engine/src/connection.rs:241-277 | the second parse, over at least as many octets, returns the first one's head and length, and the body slice is the declared body |
| Engine.SendResponse | engine/src/connection.rs:349-353 | a HEAD response is its head alone, any other is head and body as one image, in either of the two writing modes |
| Engine.AnswerRequest | engine/src/connection.rs:247-364 | UTF-8 check, call, header edits and writes send, record and stop as the specification of an answer says |
| Engine.UnderGuard | engine/src/connection.rs:214-354 | from the 413 check to the written response the loop does what TakeRequest says |
| Engine.Shift | engine/src/connection.rs:366-370 | moving the leftover to the front loses, duplicates and reorders nothing |
| Engine.ServeOne | engine/src/connection.rs:214-371 | on every path a request's start and finish pair up and the counter is as before |
| Engine.ReadHead | engine/src/connection.rs:373-414 | the 431 check, the growth and the read at the bottom of the loop do what ReadOn says |
| Engine.ServeBuffered | engine/src/connection.rs:178-371 | the inner loop answers all buffered requests and leaves an incomplete head |
| Engine.Handle | engine/src/connection.rs:163-416 | the imperative loop ends, calls and sends exactly as Run does, its starts and finishes alternate, and the counter is restored |
| Requests.ParseRender | engine/src/connection.rs:188-197 | a plain head written out is recognised whole by the stand-in parser: every octet and nothing more |
| Requests.EmptyLineSkipped | engine/src/connection.rs:188-197 | an empty line before a request is skipped and counted |
| Requests.OtherVersionRefused | engine/src/connection.rs:188-191 | a request line with any other version of HTTP/1 than 1.0 and 1.1 is an error |
| Requests.MoreHeadersRefused | engine/src/connection.rs:82-83 | a head with more than 64 headers is an error |
| Requests.ParsedIsPlain | engine/src/connection.rs:188-197 | whatever the stand-in parser recognises is a plain head that, written out, is recognised as itself |
| Decoder.Stripped | engine/src/connection.rs:535-540 | a value is read as sent less all blanks at its ends and nothing else |
| Decoder.HeaderRoundTrip | engine/src/connection.rs:535-540 | a header line with a token name and a value without line breaks is read back as that header, less the blanks around its value |
| Decoder.HeadersRoundTrip | engine/src/connection.rs:535-542 | so is a whole header section, leaving what follows it |
| Decoder.StatusRoundTrip | engine/src/connection.rs:527-534 | a status line is read back as its status, for 200 to 999, and holds no line break |
| Decoder.PrintedLength | engine/src/connection.rs:513-515 | a length of any size, as the engine prints it, is read by the client as that length |
| Decoder.LengthsMustAgree | engine/src/connection.rs:436-444 | the client reads a list of two lengths exactly when they agree |
| Decoder.ClientLengthIsServerLength | engine/src/connection.rs:425-448 | a single length the client accepts, in the range of usize, the server accepts alike |
| Decoder.HeadRoundTrip | engine/src/connection.rs:525-543 | after a serialized head the client holds the headers sent and stands at the body |
| Stream.WireHeaders | engine/src/connection.rs:312-333 | exactly the handler's headers without Connection, a length where there was none, and the engine's own Connection on the last response |
| Stream.OnlyLastCloses | engine/src/connection.rs:302-333 | of whatever responses can be sent at all, exactly the last carries a Connection field, once and at the end, whatever the handler set |
| Stream.TransferLeftAlone | engine/src/connection.rs:494-500 | a response framed by a transfer coding gets no length beside it |
| Stream.WiredSeen | engine/src/connection.rs:312-333 | the client sees the handler's fields in order without Connection, then the added length if any, then Connection: close on the last response, and nothing else |
| Stream.WireExtent | engine/src/connection.rs:493-517 | the body length a client assigns to a response is nothing, the handler's, or the engine's true one |
| Stream.ResponseInSync | engine/src/connection.rs:335-353 | a client reads one response back as sent and finds the next where it begins if and only if the handler's framing is true |
| Stream.SignedLengthLosesSync | engine/src/connection.rs:487-500 | a handler's length of "+5" for five octets, which the server's own reader takes, breaks sync |
| Stream.NoContentWithBody | engine/src/connection.rs:349-353 | a 204 or 304 with a body breaks sync |
| Stream.FarewellInSync | engine/src/connection.rs:56-80 | the canned 431, 413 and 400 decode to a status with Connection: close and no body |
| Stream.HeadTest | engine/src/connection.rs:286 | the server takes a method for HEAD exactly when it is those four letters in either case |
| Stream.AnswerShape | engine/src/connection.rs:259-354 | an answer sends the wired image of the handler's response, or the 400 |
| Stream.StreamInSync | engine/src/connection.rs:163-416 | in every run the client decodes exactly one reply per call, in order, and then the server's last words |
| Exchange.FirstDue | engine/src/connection.rs:178-277 | an orderly request gets its answer whatever comes after it |
| Exchange.OrderlyServed | engine/src/connection.rs:163-371 | orderly requests are clear, those within the quota reach the handler as meant, and the end is orderly |
| Exchange.ReplyAt | engine/src/connection.rs:327-353 | reply i has the handler's status, the whole body unless the client asked for the head alone, the handler's fields with the engine's own, and Connection: close exactly from the quota on |
| Exchange.RepliesAreWhole | engine/src/connection.rs:349-353 | in every run from any state each call made is answered with its status and whole body, or its head alone for a client's HEAD |
| Exchange.RoundTrip | engine/src/connection.rs:163-416 | for every prompt segmentation the handler, if it behaves on the requests it is given, is given the client's requests up to the quota, with method, headers, body, path and query as sent, and the client decodes its replies and nothing else |
| Greeting.Greeted | engine/src/connection.rs:163-416 | for one client and handler, every call and every octet of two pipelined replies, however cut up |
| Spool.ConcatenationExactly | ext/helix_rack/src/lib.rs:1241-1260 | what is collected is the concatenation of the chunks if and only if no file write failed |
| Spool.SuccessMeaning | ext/helix_rack/src/lib.rs:1210-1227 | success takes every raised error and nested attempt to be rescued; with working disks it takes no more and lands the concatenation |
| Spool.BrokenDiskFails | ext/helix_rack/src/lib.rs:1246-1257 | a failing write that is not rescued ends the collection |
| Spool.PartialWriteStays | ext/helix_rack/src/lib.rs:1255-1257 | a rescued failure of a write to the file leaves there what had landed of it |
| Spool.RescueLosesOctets | ext/helix_rack/src/lib.rs:1210-1227 | a write failure rescued by the application lets the collection succeed with octets missing |
| Spool.BoundariesDoNotMatter | ext/helix_rack/src/lib.rs:1244-1258 | equal contents are kept alike, in memory or on file, wherever the chunk boundaries fall |
| Spool.BodyReader.SpoolChunk | ext/helix_rack/src/lib.rs:1241-1260 | a chunk is appended in memory or on file by the threshold, fails only on file I/O, and memory never holds more than the threshold |
| Spool.BodyReader.Each | ext/helix_rack/src/lib.rs:1210-1227 | the collection goes on to the first failure that is not rescued, fails for every unrescued error, and on success holds what landed, in memory exactly while it fits |
| Spool.BodyReader.ReadBody | ext/helix_rack/src/lib.rs:1293-1331 | a nested attempt fails and changes nothing; any other exit leaves the flag down and the accumulator empty; success needs every error rescued, and with working disks is then the concatenation |
| BodyPath.ChunksReachClient | ext/helix_rack/src/lib.rs:1293-1331 | a successful collection reaches the client as the concatenation of its chunks, framed with that length, if and only if none of its writes failed |
| Watchdog.MoveKeepsInv | ext/helix_rack/src/lib.rs:581-683 | every step of client, thread, clock and wakeups keeps the invariant |
| Watchdog.RunKeepsInv | ext/helix_rack/src/lib.rs:581-683 | it holds in every world of every run |
| Watchdog.DecidedUnderLock | ext/helix_rack/src/lib.rs:636-650 | a decision to fire is taken under the lock, while its generation is armed with its deadline passed, before its disarm, and for the first time |
| Watchdog.OncePerArm | ext/helix_rack/src/lib.rs:621-683 | over every run fire is called at most once per arming and only after its deadline |
| Watchdog.NoLostWakeup | ext/helix_rack/src/lib.rs:621-683 | a parked thread with no notification on the way waits for what the state calls for: idle, this very deadline plus only the time from its look at the clock to its parking, or a generation already fired for |
| Watchdog.WaitIsTheRest | ext/helix_rack/src/lib.rs:637-642 | in every run a timed wait is for the rest of the time to its deadline as of one look at the clock, right before the parking |
| Watchdog.DeadlineIsSlice | ext/helix_rack/src/lib.rs:581-585 | in every run a request's deadline is its slice from when it was begun |
| Watchdog.ArmsAreNew | ext/helix_rack/src/lib.rs:583-585 | every arming has a generation never armed before |
| Watchdog.ShutdownStops | ext/helix_rack/src/lib.rs:722-734 | after shutdown the thread is never stuck and returns within four steps of its own |
| Watchdog.JoinedIsStopped | ext/helix_rack/src/lib.rs:727-734 | in every run the client's join returns only when the thread has |
| Watchdog.ClientGoesOn | ext/helix_rack/src/lib.rs:581-617 | while the lock is free the client can take its next step, whatever it is |
| Watchdog.WorldGoesOn | ext/helix_rack/src/lib.rs:634-642 | time goes on by any amount, a wait may end spuriously, and a timed one ends by itself exactly from its wake time on |
| Watchdog.LockIsReleased | ext/helix_rack/src/lib.rs:629-680 | a thread that holds the lock lets go of it within three of its own steps, which it can take |
| Watchdog.EarlyShutdownHangs | ext/helix_rack/src/lib.rs:677-679 | shut down while a request is armed that it has fired for, or is firing for, the thread never returns |
| Watchdog.HangIsReached | ext/helix_rack/src/lib.rs:636-679 | from the start six steps lead to such a moment, and the seventh to another |
| Watchdog.OverdueFires | ext/helix_rack/src/lib.rs:636-651 | a request left armed when its deadline and any wait for it have passed is fired for within five steps of the thread, which always has one to take |
| Watchdog.FiresInTime | ext/helix_rack/src/lib.rs:636-651 | in every run a request still armed when its deadline is past by at most as long as the thread holds a look at the clock is fired for within five of its steps |
| Drain.MoveKeepsInv | engine/src/lib.rs:126-168 | every step of tasks, clock and main future keeps the counter equal to the live guards and drain's wait justified |
| Drain.NoLostWakeup | engine/src/lib.rs:157-168 | in every reachable world the counter is the number of requests in flight, and a parked drain without a notification has one coming |
| Drain.NothingAccepted | ext/helix_rack/src/lib.rs:1555-1572 | once a shutdown is noticed no connection is accepted any more |
| Drain.NoticeBegan | ext/helix_rack/src/lib.rs:1555-1572 | in every run past serving the grace period counts from the moment the shutdown was noticed |
| Drain.CutOnlyAfterGrace | ext/helix_rack/src/lib.rs:1560-1575 | a request is cut off at teardown only when the whole grace period has passed since the shutdown was noticed |
| Drain.OnlyOnRequest | ext/helix_rack/src/lib.rs:1644-1648 | nothing is drained or torn down unless a shutdown was requested |
| Drain.ServesUntilNoticed | engine/src/lib.rs:204-246 | while serving, connections are taken, and a requested shutdown, and no other, can be noticed |
| Drain.TasksGoOn | engine/src/lib.rs:126-137 | until drain is over requests may begin, are finished and told of, and idle connections close |
| Drain.TornDownIsOver | ext/helix_rack/src/lib.rs:1560-1575 | teardown drops every connection and nothing happens on them afterwards |
| Drain.RegisteredSince | engine/src/lib.rs:159-165 | in every run a waiting drain counts from the notifications at its latest registration, so only one that came since wakes it |
| Drain.GracefulTeardown | ext/helix_rack/src/lib.rs:1560-1575 | at teardown no request is in flight, or the grace period is over |
| Drain.DrainEnds | engine/src/lib.rs:157-168 | with nothing in flight and no new request, or with the period over, drain ends within three polls, whatever idle connections do |
| Traps.TrapState.InstallShutdownTraps | lib/helix_rack.rb:192-203 | a new generation's trap is put in front of every signal's handler, which is remembered |
| Traps.TrapState.RestoreShutdownTraps | lib/helix_rack.rb:250-256 | only the latest generation puts its handlers back |
| Traps.BeginKeepsInv | lib/helix_rack.rb:192-203 | installing keeps every running server's trap in every chain, and the chains rooted in the original handlers |
| Traps.EndKeepsInv | lib/helix_rack.rb:250-256 | so does restoring, stale or not |
| Traps.RunKeepsInv | lib/helix_rack.rb:137-156 | and so does every run of overlapping serve calls |
| Traps.EveryRunningServerIsTold | lib/helix_rack.rb:224-236 | on a signal every running server is told, the newest first and each at most once, and a callable original handler is called exactly once |
| Traps.RestoredExactly | lib/helix_rack.rb:250-256 | with no server left the original handlers are back if and only if no calls ever overlapped |
| Traps.NestedLeavesTrap | lib/helix_rack.rb:66-76 | two nested calls leave the finished first one's trap installed |

## Left out

- The real head parser, `httparse`: the stand-in reports the same three verdicts and has the same limit of 64 headers, but is stricter in places (versions, obsolete line folding).
- Request Transfer-Encoding and a client's Connection: close: the server reads neither.
- Response Transfer-Encoding: the engine speaks no transfer coding, so the sync results are for handlers that set none.
- Response headers, other than Connection fields, whose name is no token or whose value breaks the line: the engine sends them verbatim, and the sync results do not cover them.
- The wording of reason phrases: that table is data, of which only the absence of line breaks and the phrases of the canned rejections enter a result.
- The client's CONNECT requests, after a 2xx to which there is no message body but a tunnel.
- The bodies of 1xx responses and statuses above 999: a handler that returns them is outside the sync results.
- Errors of `try_clone`, `seek` and `metadata` on a spool file are folded into its `sized` and `broken` parts.
- The clock inside `handle`: a read of an idle connection is met by data in time or too late.
- `watchdog::Watchdog` and `ConnectionCounter::drain` in their object form: their threads interleave, so they are transition systems on values; the mutex and the condition variable are the granularity of the steps, not objects.
- Drain.NoLostWakeup: a wait is justified by a request in flight or one whose `notify_waiters` is still to come; between a guard's decrement and its notification the count alone may already be zero.
- Drain.DrainEnds: counts polls of the main future; that the runtime polls it when it is woken is not modelled.
- Watchdog.OncePerArm: is about the decision's generation; `fire()` runs after the lock is released and may land after the disarm, as in the code.
- Accept errors and their backoff, the 20 ms polling interval of `cancelled`, the resetting of the shutdown request, `Thread#kill` and other non-local exits.
- The `warn` in the signal handler and exceptions rescued there; signals themselves are looked at between serve calls' steps, not inside them.
- Traps.RunKeepsInv: installing and restoring are single steps, as the mutex makes them; a signal between the two `Signal.trap` calls of one step is not modelled.
- Ruby, the GVL, building the Rack environment, fault containment, the postponed job, io_uring, the command line and the benchmarks.
