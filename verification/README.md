# Kitserv: a verified model

Kitserv is a small non-blocking HTTP/1.1 server. This project models its three hard parts in Dafny and proves what they
promise.

* **Reading requests.** `kitserv_http_recv_request` parses in place in one 4096-byte buffer, can stop at any byte and
  resumes later. `Client.dfy` keeps that form: a class with the source's fields, an array that is cut with NULs and
  decoded where it stands, saved cursors, and loops for the gotos. It is proved against a pure splitter
  (`Splitter.dfy`), the splitter against a printer of request heads (`Grammar.dfy`), whose lines are read off as
  characters (`Fields.dfy`, `Rejections.dfy`), and a whole connection against the iterated pure parse of everything the
  peer sends (`Pipeline.dfy`).
* **Answering them.** `Headers.dfy`, `Response.dfy` and `Sending.dfy` model the header block, the assembly of a response
  and the two senders, `Handlers.dfy` and `Shapes.dfy` what handlers do and make of a response, `Replies.dfy` what the peer gets.
  `Connection.dfy` puts them under `kitserv_http_serve_client`. Its steps log visits, and its invariant keeps the log
  true: completed heads are the requests read, finished responses are the replies. The log is a run of the state machine
  in `Lifecycle.dfy`, whose theorems are therefore about the requests and replies of every connection: the i-th reply
  answers the i-th request, with what becomes of the handler's next calls. Nothing in these statements is left to a flag:
  the bytes of the peer, the plan of the handlers, and the counts of the partial writes determine them.
* **Sharing connection slots.** `Slots.dfy` is the free list of one worker with its links. `Protocol.dfy` interleaves the
  steps of any number of accepters and workers, and a kernel that reuses descriptors; its steps are
  what is proved of the class, and of `kitserv_http_serve_client` on the client of a slot (`Refinement.dfy`).

`Cookies.dfy`, `Ranges.dfy`, `UrlCoding.dfy`, `Numbers.dfy` and `ApiTree.dfy` are the sub-parsers, `Requests.dfy`,
`Bytes.dfy` and `Sockets.dfy` what the others build on.

The adversary is part of the model. A socket is a script of events (bytes, would-block, error, end of file), a write
takes any part of what it is offered, handlers are a script of calls of the public interface, files and the fixed texts
of the library are arbitrary, and so is the outcome of every queue registration. Theorems hold for all of them.

The code is modelled as it is. Where it does something else than it evidently means, the model does so too, and a lemma
says exactly when the two agree:

| place | what happens | exact condition |
|---|---|---|
| src/http.c:1327-1339 | after a partial `writev` every buffer is compared with the whole count | `Sending.DropAsWrittenExact`, `Sending.SentAllIffSafe`, `Replies.OnWireAsMeantIff`: right exactly if each write ends inside the first non-empty buffer or takes everything |
| src/http.c:1324 | every failure of `writev` counts as would-block | `Sending.SendResponse`: a broken peer leaves the connection waiting in the same state |
| src/http.c:624-643 | an error or the end of file hangs up even if a complete request is buffered | `Clients.CompleteRequestDropped`: exactly if the call that would parse it finds one of them first; `Clients.Client.RecvRequest` for all calls |
| src/api.c:103-113 | a payload read that fails half-way does not say what it has taken | `Clients.Client.ReadPayload`: exactly if the socket breaks; the bytes count as taken |
| src/http.c:1052 | names of subtrees are taken from the root | `ApiTrees.PicksAsMeantIffAligned` for a level, `ApiTrees.OnCourseWalk` and `ApiTrees.RightAfterAWrongTurn` for a whole path |
| src/http.c:171-186 | only the first two dots in a row of a path are looked at | `Requests.TraversalByItsDots`: it is rejected exactly if those are a whole segment |
| src/http.c:1055 | a path that ends at the name of a subtree is left behind its NUL | `ApiTrees.OnCourseWalk`: exactly the paths of `EndsAtSubtree` |
| src/http.c:413-430 | range boundaries differ from section 14.1.2 of RFC 9110 | `Ranges.SelectsAsTheStandard`, `Ranges.WindowBySize` |
| src/kitserv.c:82-84 | the last link of a new free list is not written | `Slots.ConnectionContainer.LastLinkDecides` |
| src/kitserv.c:244 | the result of registering is ignored | `Protocol.LostForGood`: slot and socket are never given back |
| src/http.c:1279 | the descriptor field gets the status code, and 507 is closed | `Responses.Response.Prepare`: exactly when the final empty line does not fit; `Protocol.StrayCloseIsHarmlessIff`, `Protocol.StrayRunsAreReachableIff`: the server stays in order exactly if nobody uses that descriptor |
| src/http.c:1263-1272 | content-length is added whatever the handler added before | `Responses.OneLengthExactly`: it is the only one exactly if an error replaced the handler's fields or they hold none; `Responses.TwoLengths` |
| src/http.c:1196 | so is content-type when an error preserves the headers | `Responses.OneTypeExactly` |
| src/kitserv.c:229-242 | a connection is refused although free slots were observed | `Protocol.UnfairExactlyWithTwo`: it can happen exactly if there is more than one accepter |
| src/http.c:1194 | a negative descriptor, set for a HEAD request, survives an error | `Responses.ErrorLength`: the error then announces length 1 |
| src/http.c:1396-1411 | a descriptor is not closed after HEAD or when its file ends early | `Replies.DescriptorClosedIff`, `Replies.SentFileClosedIff` |
| src/http.c:1283-1290 | a body range that starts behind the body has a negative size | `Connections.Connection.DoSend`: the response is never sent, and the connection waits for good |
| src/http.c:1303-1310 | the second pass after a full block keeps what is to be preserved | `Responses.Response.Prepare`: it then never succeeds (`CanPrepare`) |
| src/http.c:280-304 | a trailing semicolon spoils a cookie header, cookies with empty values are skipped except for the last | `Cookies.PieceWithoutValue`, `Cookies.ReadsBackExactly` |

## Model

| member | source | states |
|---|---|---|
| Splitter.ChunkingIndependence | src/http.c:596-852 | However a stream is cut into reads, the parser ends in the same outcome as when all of it is read at once: same error, same saved state and offset, or same request and end of head |
| Splitter.ResumeExtends | src/http.c:605-647 | Resuming any parse state from its saved cursors after more bytes arrived gives what parsing all bytes from there gives |
| Splitter.ParseExtends | src/http.c:649-839 | More bytes never change a conclusion, and an unfinished parse continues from its saved state; offsets stay in bounds |
| Splitter.DoneIsStable | src/http.c:841-843 | A complete head stays the same head whatever follows it |
| Splitter.FailuresAreErrors | src/http.c:649-839 | A request that does not parse gets status 400, 501 or 505 |
| Splitter.RejectionsAreErrors | src/http.c:624-643 | Whatever rejects a request, a full buffer included, is an error status |
| Splitter.FailStaysFail | src/http.c:596-852 | A rejection stands whatever follows |
| Splitter.ReadChunkConsistent | src/http.c:617-647 | Every read leaves a buffer of at most 4096 bytes, not full while more is wanted, and cursors within it |
| Requests.MethodsByName | src/http.c:662-693 | The five method names, written as characters, and the bits of each; HEAD is a GET as well |
| Requests.VersionsByName | src/http.c:735-750 | The two version numbers, written as characters |
| Requests.FieldsByName | src/http.c:247-254 | The names of the six known fields, written as characters |
| Requests.TraversalByItsDots | src/http.c:171-186 | A path is rejected exactly if its first two dots in a row are a whole segment |
| Requests.PrintableCharacters | src/http.c:704-712 | A target may hold the characters from the space to the tilde |
| Rejections.UnknownMethodIff | src/http.c:655-695 | 501 is given exactly for a word before the first space that is no method |
| Rejections.UnknownMethodIsAnsweredAsGet | src/http.c:686-690 | Such a request is answered as a GET, so that the error has a text |
| Rejections.UnknownVersionIff | src/http.c:731-757 | 505 is given exactly for a version that is not known, behind a good method and target; every other request that does not parse gets 400 |
| Rejections.BufferFullIff | src/http.c:624-643 | 431 is given exactly for 4096 bytes that do not decide the request |
| Grammar.AcceptsExactlyTheGrammar | src/http.c:655-844 | A request is accepted exactly when its bytes begin with a printed head whose parts hold, and it ends where that head ends |
| Grammar.HeadAccepted | src/http.c:655-844 | Every printed head whose parts hold is accepted with that meaning, whatever follows |
| Grammar.HeadOf | src/http.c:655-844 | Every accepted request begins with a printed head that has that meaning |
| Grammar.TargetRoundTrip | src/http.c:697-729 | A path and a query that are percent-encoded in any way, and joined by a question mark, are read back as they were |
| Grammar.FieldLineRoundTrip | src/http.c:781-808 | A known field, in any case and with any blanks before its value, is stored with that value |
| Fields.AcceptedRequestSays | src/http.c:655-844 | Every accepted request begins with a head whose parts are written out: method, version, the target split at its first question mark and decoded, and for each of the six fields the value of the last line with its name, or none exactly if there is no such line; the length is a number and not negative |
| Fields.HeadHoldsIff | src/http.c:781-808 | A head is accepted exactly if its request line is good, each line has a name before a colon, and each content-length is a number and not negative |
| Fields.LinesSay | src/http.c:781-808 | A run of lines leaves each field with the value of the last line that has its name in any case |
| Fields.LineIsKeptIff | src/http.c:781-808 | A line is accepted exactly if it has a name, and a length that it gives is a number and not negative |
| Fields.PrintedFieldSays | src/http.c:498-525 | A field of a response prints as a line that says its name and value to such a parser |
| Clients.Client.RecvRequest | src/http.c:596-852 | It hangs up exactly if an error or the end of file comes before what decides the request, or at once; otherwise the result is what the pure parser concludes from all bytes of the transaction, however they were split into reads and calls; every byte read is consumed or pending, also when the request is rejected; the captured strings read as the pure parse says and end before the payload; it waits only after a read that would block; it hangs up only with room left in the buffer, and in the middle of a request or before anything of it was parsed |
| Clients.CompleteRequestDropped | src/http.c:624-643 | A request that is complete in the buffer is lost exactly if the next read meets an error or the end of file |
| Clients.HangsUpLaterIff | src/http.c:624-643 | Reading on ends in a hangup exactly if an error or the end of file comes before the bytes that decide the request |
| Clients.Client.ReceiveHead | src/http.c:611-647 | The loop of reads and parses ends, and ends blocked, complete or rejected as the pure parser does |
| Clients.Client.TakeTurn | src/http.c:617-647 | One read and the parsing it allows keep the saved state equal to that of the pure parser |
| Clients.Client.ParseTurn | src/http.c:645-851 | The parsing a read allows ends in the pure parser's saved state, its request with nothing captured lost, or its error |
| Clients.Client.FillBuffer | src/http.c:617-643 | Which result a read has: more to parse, would-block, hangup, or 431 for a full buffer |
| Clients.Client.ParseBuffered | src/http.c:649-839 | The switch with its fallthroughs computes the pure parser's outcome from any saved state |
| Clients.Client.ParseMethod | src/http.c:655-695 | The method stage in place is the pure stage |
| Clients.Client.ParsePath | src/http.c:697-729 | The target stage in place is the pure stage: split at the first raw question mark, then each part is decoded once |
| Clients.Client.CaptureTarget | src/http.c:708-724 | Path and query are captured decoded, and no byte from the end of the target on changes |
| Clients.Client.PathTraverses | src/http.c:171-186 | The scan of the decoded string decides the traversal predicate |
| Clients.Client.ParseVersion | src/http.c:731-757 | The version stage in place is the pure stage |
| Clients.Client.ParseVersionLf | src/http.c:759-770 | The line feed after the version is awaited or missed as in the pure stage |
| Clients.Client.ParseHeads | src/http.c:772-833 | The two header states and the jumps between them compute the pure outcome |
| Clients.Client.ParseHeaderLine | src/http.c:781-808 | One header line is cut and stored as the pure step does; earlier captures keep their values |
| Clients.Client.StoreHeader | src/http.c:193-239 | The handlers of the known headers store the value, and refuse a content-length that is no number or negative, as the pure step does; the new string shares no byte with an earlier one |
| Clients.Client.ReadPayload | src/api.c:89-126 | The bytes handed out, followed by what is pending, are what was pending followed by what was read from the socket; the buffer is emptied before the socket is touched; what is returned is their number, or -1 exactly if there are none or the socket broke, when they are taken all the same |
| Clients.Client.ReadDirect | src/api.c:103-125 | Reading the rest from the socket puts exactly the bytes taken from it into the caller's buffer, in order, and fails exactly if there are none at all or the socket broke |
| Clients.Client.FetchPayload | src/api.c:89-126 | Both sources of payload together: what was read too far comes first |
| Clients.Client.DrainBuffered | src/api.c:95-101 | Bytes read too far with the head are handed out first, in order, and once |
| Clients.Client.ParseCookies | src/http.c:256-318 | Cutting up the cookie header in the request buffer leaves every other captured string and all payload bytes as they were, and stores the pairs of the pure parse |
| Clients.Client.GetCookie | src/api.c:43-59 | A lookup finds a value exactly if some pair has the name and the length is right, and then that of the first such pair; no lookup changes what later ones find, another captured string, or the payload |
| Clients.Client.GetRange | src/api.c:71-77 | The captured range header is parsed as the pure parse says, and the buffer is as before |
| Clients.Client.CapturesTheRequest | src/include/http.h:61-76 | As long as a request is served the fields capture it: all strings end before the payload and read as parsed, except that looked-up cookies are given up for their pairs |
| Clients.CookiesGivenUp | src/http.c:287-291 | NULs written within the cookie header disturb no other captured string |
| Clients.Client.RecordBody | src/api.c:89-126 | Payload that was handed out is consumed right after what was consumed before |
| Clients.Client.Finalize | src/http.c:93-102 | The remaining payload is within the buffer and becomes the start of the next request, unchanged |
| Clients.Client.Reset | src/http.c:104-108 | The client is as new |
| Clients.Client.RequestsAreTheIteratedParse | src/http.c:93-102 | The requests of a connection are the iterated pure parse of all bytes the peer sends, given how much payload each handler read |
| Clients.Client.RecordHead | src/http.c:841-843 | A completed head splits the pending bytes into head and payload |
| Pipeline.HistoryIsIteratedParse | src/http.c:93-102 | Heads and bodies that concatenate to a prefix of a stream are the iterated parse of that stream |
| Pipeline.ReadBodyConsumes | src/api.c:89-126 | Payload returned by a call is consumed right after what was consumed before |
| Pipeline.HeadStandsAlone | src/http.c:841-843 | The bytes of a head parse to the same request without what follows them |
| Pipeline.ExchangeAt | src/http.c:93-102 | Head and payload of a transaction follow what those before it consumed |
| Sockets.Socket.Read | src/http.c:617-623 | A read takes at most what fits, from the front of what arrives, and loses nothing: what was taken and what is to come are what the peer sends |
| UrlCoding.DecodeInvertsEncode | src/http.c:478-496 | Decoding undoes percent-encoding for every string without NUL and every choice of bytes left plain |
| UrlCoding.DecodeOfPlainText | src/http.c:478-496 | A string without percent signs decodes to itself |
| UrlCoding.DecodeInvertsAnyEscapes | src/http.c:478-496 | Decoding undoes every escaping, with hexadecimal digits of either case |
| UrlCoding.NoEscapeStays | src/http.c:478-496 | A percent sign without two hexadecimal digits behind it stays |
| UrlCoding.DecodeInPlace | src/http.c:478-496 | The loop with two cursors leaves the pure decoding, and touches nothing outside the string |
| UrlCoding.DecodeTarget | src/http.c:717-723 | Path and query are cut apart and decoded independently |
| Numbers.DigitsAreANumber | src/http.c:114-123 | A string of digits is accepted exactly if its value is below 2^63, and then has that value |
| Numbers.DecimalValue | src/http.c:563-566 | The printed decimal reads back as the number |
| Numbers.PrintLongLength | src/http.c:563-566 | A printed length takes between 1 and 20 bytes |
| Numbers.NumeralIsRead | src/http.c:114-123 | White space, a sign and digits are read as the number they stand for, or as the nearest one of 64 bits, up to the last digit |
| Numbers.NumberTexts | src/http.c:114-123 | A text is accepted exactly if it is empty, or such a numeral within 64 bits and nothing else |
| Numbers.LongRoundTrip | src/http.c:563-566 | Every number of 64 bits is read back as it was printed, negative ones too |
| Headers.HeaderBlock.Append | src/http.c:142-151 | A text is appended whole, or the offset stays and earlier bytes are untouched |
| Headers.HeaderBlock.Add | src/http.c:498-525 | The block is always a concatenation of whole lines shorter than the buffer; a line is added exactly if it fits, and otherwise none of it is |
| Headers.HeaderBlock.Finish | src/http.c:1277-1281 | The empty line ends the block once, exactly if it fits |
| Responses.FileFraming | src/http.c:1263-1272 | The bytes of a completed transfer are as many as announced exactly if the window lies in the file or is empty, and then they are the window |
| Responses.CutShort | src/http.c:1397-1412 | A transfer that the end of the file cuts short has sent the file from the start of the window on |
| Responses.InvertedWindowCanSendTheRest | src/http.c:1397-1405 | A window that ends before it starts can send all of the rest of the file |
| Responses.NegativeLength | src/http.c:413-430 | A suffix of an empty file announces -1 |
| Responses.Response.SendFile | src/api.c:162-173 | An earlier descriptor is closed and the window becomes the whole file; a disabled descriptor restores the body |
| Responses.Response.SetSendRange | src/api.c:175-184 | Exactly the negative bounds are refused, and when an accepted range can be sent from a file |
| Responses.Response.WriteBody | src/api.c:128-136 | The body grows by all of the text or not at all, exactly as memory and length allow |
| Responses.Response.Assemble | src/http.c:1257-1293 | Length, server and empty line are added exactly if all fit; the announced length belongs to the buffers that are set up |
| Responses.Response.SubstituteError | src/http.c:1175-1243 | Headers and body give way to those of the error unless they are preserved, and an open descriptor is closed |
| Responses.Response.Prepare | src/http.c:1245-1313 | It succeeds exactly if there is a peer, the fields fit, a second pass has nothing to keep and there is memory; then the response is the handler's or what becomes of it in an error: status, body, descriptor, window, descriptors closed, and the block with the length of what will be sent, server, and one empty line; if it fails it has closed no more than an error would have replaced |
| Responses.Response.PrepareError | src/http.c:1303-1310 | The error pass replaces or keeps fields and body as the flags say; in a block that was too full it succeeds only if nothing is kept |
| Responses.OutcomeByNumbers | src/http.c:1245-1313 | A response stays as it was made exactly if it has no error status and its fields leave room for the empty line and a NUL in 4096 bytes; otherwise its status is its own error or 507, and the text of the error replaces body, file and window unless the body is preserved |
| Responses.FieldsAre | src/http.c:1175-1281 | The fields of a prepared response, in order: the handler's, or for an error that replaces them the allow field exactly under 405; the type of an error's text; content-length and server |
| Responses.AllowCount | src/http.c:1175-1183 | A 405 that replaces the handler's fields has one allow field, any other such error none, and all others those that the handler added |
| Responses.StatusKept | src/http.c:1303-1310 | A status is kept exactly if it is an error or the added fields fit |
| Responses.ErrorLength | src/http.c:1194 | An error announces the length of its text exactly if the descriptor is not negative, and otherwise 1 |
| Responses.OneLengthExactly | src/http.c:1263-1272 | A response has exactly one content-length field, regardless of case, exactly if an error replaced the handler's fields or they hold none |
| Responses.OneTypeExactly | src/http.c:1196 | An error that preserves the handler's fields has exactly one content-type exactly if they hold none |
| Responses.CountOfAll | src/http.c:1196-1272 | How many content-length and content-type fields a response has, in terms of those the handler added |
| Responses.TwoLengths | src/http.c:1263-1272 | A handler that adds a content-length makes the response announce two different ones |
| Responses.Response.Transfer | src/http.c:1397-1405 | Under any partial counts the file goes out in order from its first byte on, up to the end of the window or of the file |
| Responses.Response.SendResponseFile | src/http.c:1392-1419 | When the state is left the window was delivered, and a positive descriptor was closed once, exactly if the file did not end before the window; suspended or broken, nothing is closed and a suspended transfer stands where it stopped; the connection is kept exactly without error status and above HTTP/1.0 |
| Responses.Response.CloseFd | src/http.c:129-135 | Exactly a positive descriptor is closed |
| Responses.Response.Reset | src/http.c:87-91 | The response is blank; nothing is closed |
| Sending.DropAsWrittenExact | src/http.c:1327-1339 | The bookkeeping keeps the right bytes pending exactly after a safe write; after any other it loses some |
| Sending.DropIsSuffix | src/http.c:1327-1339 | The meant bookkeeping keeps exactly the bytes that were not taken |
| Sending.DropByBuffers | src/http.c:1327-1339 | Each buffer up to the first that is longer than the count is emptied, that one is cut, and the others stay |
| Sending.RunConserves | src/http.c:1320-1344 | Over any run of partial writes, wire and pending bytes make up the response while all writes were safe, and bytes are missing for good after one that was not |
| Sending.SentAllIffSafe | src/http.c:1320-1344 | When sending ends, all was sent exactly if every write was safe |
| Sending.MeantRunSendsAPrefix | src/http.c:1315-1345 | With the meant bookkeeping the wire holds a prefix of the response after any partial writes, and all of it at the end |
| Sending.SafeRunsAreAsMeant | src/http.c:1315-1345 | The code does what is meant for as long as every write is safe |
| Sending.RunComposes | src/http.c:1315-1345 | A transmission that is suspended and resumed is one transmission |
| Sending.RunShifts | src/http.c:1315-1345 | What was sent before does not matter to a transmission |
| Sending.RunResumes | src/http.c:1315-1345 | A transmission that is resumed behind earlier responses is one transmission behind them |
| Sending.PartialWriteCanLoseBytes | src/http.c:1327-1339 | A write that stops behind the start line loses header bytes |
| Sending.Account | src/http.c:1327-1339 | The loop over the three vectors is the specified bookkeeping, and ends early exactly if something is pending |
| Sending.SendResponse | src/http.c:1315-1345 | The send loop is a run of partial writes and is done only with nothing pending; any failed write counts as would-block, and it stops only after one; buffers of 2^63 bytes or more, and only those, are refused by the kernel and never sent |
| Sending.Wire.Write | src/http.c:1320-1326 | A write takes a prefix of what is offered, at least one byte if it succeeds and there is one |
| Replies.FileIsFramed | src/http.c:1397-1412 | A completed file transfer has the announced length exactly if the file has the announced bytes, and then it is them |
| Replies.OthersAreFramed | src/http.c:1283-1290 | A body sent from its start offset has the announced length; a response without body has it exactly if nothing is announced |
| Replies.DeliveredIsFramed | src/http.c:1263-1412 | Every response that was sent to its end is framed as its head and method promise |
| Replies.ContentByMethod | src/http.c:1283-1290 | Nothing follows the head of an answer to HEAD; what follows any other is as long as announced exactly if it is there |
| Replies.WiredAsMeantIff | src/http.c:1315-1345 | Head and content of a response arrive exactly if all its partial writes were safe; otherwise bytes are missing |
| Replies.OnWireAsMeantIff | src/http.c:1315-1345 | The responses of a connection arrive as they are meant, one after the other, exactly if all partial writes of all of them were safe |
| Replies.HeadAnnouncesTheSame | src/include/http.h:80-92 | HEAD gets the head that GET would get from the same handler, byte by byte |
| Replies.DescriptorClosedIff | src/http.c:1175-1419 | From what the handler left to the end of the response a descriptor is closed once if an error replaces it or the transfer reaches its end, and otherwise never; only 507 can be closed in its stead |
| Replies.SentFileClosedIff | src/http.c:1392-1419 | A descriptor that is sent is closed exactly if the response is not to HEAD and its window lies in the file or starts behind its own end |
| Replies.ForgottenDescriptors | src/http.c:1397-1418 | After HEAD, and when the file ends before the window, it stays open |
| Replies.RecordsReply | src/http.c:1414-1418 | A finished response enters the record at the place of the request it answers, after the descriptors of those before it were closed |
| Replies.OneMoreServed | src/http.c:1453-1462 | A reply that continues the plan of the handlers where the last one stopped extends the record |
| Handlers.CalledAgainIff | src/http.c:1081-1086 | A handler is called again exactly if it has left the status unset |
| Handlers.WhatACallDid | src/api.c:43-126 | A cookie lookup finds the first pair with the name, a range lookup the bounds of the header, and a payload read at most what was asked for |
| Shapes.LastWordStands | src/api.c:162-194 | Whether an error preserves headers and body, what it allows, and what is sent, is what was said last |
| Shapes.BodyIsWritten | src/api.c:128-160 | The body is what was written since it was last reset |
| Shapes.FieldsAreAdded | src/api.c:153-156 | As long as they fit, the fields are those added since they were last reset |
| Shapes.StatusIsSetLast | src/http.c:498-535 | The status is the one set last: outright, by a field that did not fit, or by a socket that broke |
| Shapes.OnlyAStatus | src/http.c:1245-1313 | A handler that only sets a status sends an empty body or the text of the error, and no other fields |
| Replies.RepliesAnswerRequests | src/http.c:1429-1497 | The i-th reply answers the i-th request under its version, and its status, fields, body, descriptor and window are what becomes of what its handler did; its buffers went out by partial writes until nothing was pending, its file as far as it goes, framed as the method of that request demands; only the last can be without a request, as an error; only the last can have an error status or be for HTTP/1.0; at most one request is unanswered |
| Replies.RejectionKeepsStatus | src/http.c:1448-1465 | A rejection is sent under the status it was rejected with |
| Connections.Connection.ServeClient | src/http.c:1429-1497 | For every finite script it ends; it leaves a connection that waits for what it was refused in this call, or one that is over because the peer hung up, the response could not be prepared, a file transfer broke or the last response was sent; visits, replies and requests belong together; the handlings used are those of the replies and of the current request, in order, and every reply is what becomes of its own; every byte of the peer is consumed, pending or to come; what is on the wire is, reply by reply, what the partial writes took of start line, fields and body, and the bytes of the file, and of the current response likewise; the descriptors closed are those of the replies |
| Connections.Connection.RepliesInOrder | src/http.c:1429-1497 | The i-th reply answers the i-th request of the iterated parse of everything the peer sends, with what becomes of what its handler did, and its handler took the payload behind that request's head; or it is the last and rejects what follows the requests in that stream, under the parser's status and for what it parsed; all but the last have a status below 400 and are for HTTP/1.1 |
| Connections.Connection.RepliesFollowThePlan | src/http.c:1453-1462 | Each reply uses the handlings behind those of the reply before it, and closes descriptors after that one |
| Connections.Connection.WhatHandlersDid | src/http.c:1081-1086 | Run by run, a handler makes the calls of its handling, and is called again exactly if that is not final and the status is unset |
| Connections.Connection.HandlingsLeft | src/http.c:1453-1462 | What is left of the plan is what no reply and not the current request has used |
| Connections.Connection.RepliesArriveIff | src/http.c:1315-1345 | The replies of a connection are on the wire as they are meant exactly if every partial write was safe |
| Connections.Connection.Turn | src/http.c:1441-1490 | Every pass through the switch keeps the invariant of the state it leads to, the record, the plan, the wire and the byte balance, and shrinks the measure: request unparsed, bytes left, rank of the state; it stops only for what was refused, or at one of the four ends |
| Connections.Connection.Receive | src/http.c:1442-1452 | Receiving completes one more request and takes its bytes away, waits, rejects with the parser's error for what was read, or hangs up, exactly when the script of the peer says so; captured method and version are those of the request |
| Connections.Connection.DoRead | src/http.c:1442-1452 | A complete head is served under its version; a rejected one leads to an error response under the parser's status; the connection ends exactly when the peer hangs up, and waits only after a read that would block |
| Connections.Connection.FetchBody | src/api.c:89-126 | The payload that a call takes belongs to the current request, and all bytes stay balanced; only if the socket can break does a call fail with what it has taken |
| Connections.Connection.TakePayload | src/api.c:89-126 | Taking payload concerns no earlier reply |
| Connections.Connection.LookUp | src/api.c:43-77 | A handler is told the cookie or range that the pure parse of its request has; the lookup keeps the request and all bytes |
| Connections.Connection.AddField | src/http.c:498-535 | A field is added to what the handler has shaped exactly if its line fits |
| Connections.Connection.ApplyToResponse | src/api.c:128-199 | Each call makes of the response what its pure shape says |
| Connections.Connection.Apply | src/api.c:34-199 | Every modelled call of the public interface keeps request, bytes and record, and shapes the response and its status as specified; a field that does not fit sets status 507, a payload read that breaks hangs up |
| Connections.Connection.ApplyToRequest | src/api.c:34-126 | Reading payload, looking up headers and setting a status leave the response as it was shaped |
| Connections.Connection.ApplyToDraft | src/api.c:128-199 | Shaping the response leaves the request and its bytes as they were |
| Connections.Connection.RunHandler | src/http.c:1081-1087 | One run of a handler does its calls in order; the response and its status are the shape of them, and the payload taken is the payload of the request |
| Connections.Connection.DoServe | src/http.c:1453-1462 | The next handling of the plan is run; the connection waits for the handler to be called again exactly if the handling is not final and the status is unset; otherwise the response is prepared, shaped by all runs for this request |
| Connections.Connection.RunEnds | src/http.c:1453-1462 | A run that is over is one more of the plan, and concludes the request exactly if it is final or set a status |
| Connections.Connection.AssembleReply | src/http.c:1245-1313 | It succeeds exactly as `CanPrepare` says, and then what is due on the wire is the head and the content of what becomes of what the handler did for this request; nothing of it is sent yet |
| Connections.Connection.NothingSentYet | src/http.c:1283-1293 | The three buffers of a response that was just prepared are its head and its content, or can never be sent |
| Connections.Connection.DoPrepare | src/http.c:1463-1474 | It goes on exactly if what the handler left can be prepared, to a response about the current request and that draft; otherwise the connection ends, and the descriptors closed are those from before or the one an error replaced |
| Connections.Connection.Transmit | src/http.c:1315-1345 | Partial writes accumulate across calls: what is on the wire is what they took of the response, and it is done with nothing pending |
| Connections.Connection.DoSend | src/http.c:1475-1480 | Sending is left only for the file, and otherwise waits in the same state after a refused write; of a body range that starts behind the body nothing is ever sent |
| Connections.Connection.FinishSending | src/http.c:1392-1419 | A response that ends is recorded, with its descriptor closed as the reply says, and the connection kept exactly without error status and above HTTP/1.0; one that waits or broke has sent its buffers and a front part of its window, and closed nothing |
| Connections.Connection.Record | src/http.c:1263-1272 | A finished response becomes the last reply, with the counts of its writes and the bytes of its file; log, plan and wire stay true, and the descriptors closed are those of the replies |
| Connections.Connection.DoFile | src/http.c:1481-1486 | The file state waits, is broken, ends the connection, or goes on to finalizing only without error status and above HTTP/1.0; the bytes stay balanced in each case |
| Connections.Connection.DoFinish | src/http.c:1487-1489 | Finalizing leaves a connection ready to read the next request from the bytes left |
| Lifecycle.EveryRunTallies | src/http.c:1429-1497 | In every run the stage tells how heads and responses match and which answer is open |
| Lifecycle.ResponsesFollowRequests | src/http.c:1429-1497 | The responses answer the heads one by one and in order, under their versions; all but the last keep the connection, and a rejection can only be last |
| Lifecycle.EveryTransactionTallies | src/http.c:1429-1497 | In every run the stage tells how many heads and responses the current transaction has |
| Lifecycle.OneResponsePerRequest | src/http.c:1429-1497 | No run prepares two responses for a request |
| Lifecycle.FinalizeNeedsARequest | src/http.c:93-102 | A transaction is finalized only after its head was parsed and its response prepared |
| Lifecycle.NoRequestFollows | src/http.c:1414-1418 | After the head of an HTTP/1.0 request, a rejection or an error status no run reads another request or finalizes |
| Lifecycle.LastResponse | src/http.c:1414-1418 | A response ends the connection exactly if it has an error status or is for HTTP/1.0, and then nothing follows |
| Lifecycle.NothingAfterTheEnd | src/http.c:1463-1486 | After a failed preparation or a broken transfer nothing follows |
| Cookies.CookieRoundTrip | src/http.c:256-318 | Printed cookies are read back in order: those with a value, and the last one even without, up to 50 of them |
| Cookies.ReadsBackExactly | src/http.c:280-304 | A header of at most 50 cookies is read back as printed exactly if no value but the last is empty |
| Cookies.TrailingSemicolon | src/http.c:280-304 | A semicolon at the end discards all cookies, unless 50 are stored before it is reached |
| Cookies.PieceWithoutValue | src/http.c:280-304 | So does any piece without an equals sign |
| Cookies.FirstFifty | src/http.c:256-318 | Of cookies with values exactly the first 50 are read back |
| Cookies.LookupIsFirst | src/api.c:53-57 | A lookup finds something exactly if some pair has the name, and then the value of the first |
| Cookies.ParseInPlace | src/http.c:256-318 | The in-place parse stores the pairs of the pure one, each readable where it stands, and changes nothing outside the value |
| Ranges.RangeTextsAccepted | src/http.c:320-397 | Exactly the texts N-, -N and N-M with N not above M and values below 2^63 are ranges, with these bounds |
| Ranges.RangeRoundTrip | src/http.c:320-397 | Parsing a printed range gives its bounds |
| Ranges.ParseRangeInPlace | src/http.c:320-397 | The in-place parse gives the pure result and restores the buffer |
| Ranges.SelectsAsTheStandard | src/http.c:404-430 | The window is the one of section 14.1.2 of RFC 9110 exactly if the first position is not the size, or the suffix is above 0 and below the size |
| Ranges.WindowBySize | src/http.c:413-430 | The exact window of every range of a file of any size |
| Ranges.WindowBounds | src/http.c:404-430 | Every accepted range of a non-empty file is a window within it |
| Ranges.WindowsAreSendable | src/http.c:404-430 | What is announced for a range can be sent exactly unless it is a suffix of an empty file |
| Ranges.BoundaryDepartures | src/http.c:413-430 | Three requests that the standard answers differently |
| Ranges.ApplyRange | src/http.c:404-430 | 400 exactly for malformed texts, 416 exactly for unsatisfiable ones; only a success moves the window |
| ApiTrees.WalkAsMeant | src/http.c:1012-1060 | With aligned levels every walk reaches the meant route, except that it runs off the path exactly if that ends at a subtree name |
| ApiTrees.OnCourseWalk | src/http.c:1012-1060 | In any tree, a walk whose picks are as meant on its way reaches the meant route, except that it runs off the path exactly if that ends at a subtree name |
| ApiTrees.WrongTurn | src/http.c:1049-1058 | Any other walk has a first level where the pick is not as meant, and is right exactly if it is right from there |
| ApiTrees.RightAfterAWrongTurn | src/http.c:1049-1058 | From there it is right exactly if it misses and nothing was meant, or the subtree it got into happens to lead to what was meant |
| ApiTrees.AlignedStaysOnCourse | src/http.c:1049-1058 | With aligned levels every pick on the way is as meant |
| ApiTrees.RoutesBelow | src/http.c:1049-1058 | Where the entries do not decide, what is meant is what is meant in the subtree of that name, or a miss |
| ApiTrees.NeverOutside | src/http.c:1012-1060 | No path is meant to be read past its end or past the subtrees |
| ApiTrees.RouteIsUnique | src/http.c:1012-1060 | A path and method have one meant route |
| ApiTrees.ScanAsMeant | src/http.c:1026-1048 | The scan of a level finds the first entry for path and method, or collects exactly the methods offered for the path |
| ApiTrees.EntryIsForPaths | src/http.c:1026-1040 | An entry is for its prefix and what goes on behind it with a slash; one that finishes the path allows nothing but slashes there |
| ApiTrees.MethodsMeet | src/http.c:1043-1046 | An entry serves the requests with its own method; GET and HEAD serve each other's |
| ApiTrees.PicksAsMeantIffAligned | src/http.c:1049-1058 | Subtrees are picked as meant for all segments exactly if the level is aligned with the root, for any names, repeated ones too; the root's own level always is |
| ApiTrees.AlignedWhenDistinct | src/http.c:1049-1058 | Levels with different names are aligned exactly if each name begins the root's name at the same place |
| ApiTrees.PicksAlign | src/http.c:1049-1058 | A level whose picks are as meant is aligned everywhere |
| ApiTrees.NestedSubtreesGoWrong | src/http.c:1049-1058 | In a tree of depth two an entry is not found |
| ApiTrees.SlashesAreEmptySegments | src/http.c:1031-1038 | Trailing slashes are what is left exactly if all later segments are empty |
| ApiTrees.ParseApiTree | src/http.c:1012-1060 | The loop over levels, entries and subtrees is the specified walk |
| Slots.ConnectionContainer.constructor | src/kitserv.c:64-92 | All slots are free, linked in order, unused and without a descriptor; the list is in order exactly if the allocation left a null pointer in the last link |
| Slots.ConnectionContainer.LastLinkDecides | src/kitserv.c:80-84 | A list of all slots is in order exactly if its last link is null |
| Slots.ConnectionContainer.Accept | src/kitserv.c:98-130 | The first free slot, unused, off the list, or none exactly if none is free; the source's own checks succeed |
| Slots.ConnectionContainer.Pop | src/kitserv.c:107-113 | The head of the free list comes off, and the rest stays linked and unused |
| Slots.ConnectionContainer.Push | src/kitserv.c:136-140 | A reset slot becomes the head of the free list |
| Slots.ConnectionContainer.Close | src/kitserv.c:132-141 | A slot in use, in whatever state, becomes the first free one, unused, and no other slot is touched |
| Slots.ConnectionContainer.Clean | src/kitserv.c:134-135 | Resetting one slot leaves the free ones unused and linked |
| Slots.Slot.UnusedIsFresh | src/kitserv.c:117-125 | An unused slot passes the checks of a fresh connection |
| Refinement.InitialStep | src/kitserv.c:64-92 | A new container is what every worker of the protocol starts with |
| Refinement.TakeStep | src/kitserv.c:98-130 | Accepting on real slots is the protocol's taking of a slot |
| Refinement.ServeStep | src/kitserv.c:202-204 | Whatever is done to the state of one connection in use is the protocol's serving of an event; all others stay represented |
| Refinement.Connect | src/kitserv.c:98-130 | A connection starts on the client and the response of an unused slot |
| Refinement.ServeEvent | src/kitserv.c:202-204 | Serving a connection on real slots is the protocol's step, and the connection is over for it exactly if the call says so |
| Refinement.CleanStep | src/kitserv.c:134-135 | Resetting a real slot is the protocol's step, whatever its connection left |
| Refinement.PushStep | src/kitserv.c:136-140 | Pushing a real slot is the protocol's step |
| Refinement.HandleEvent | src/kitserv.c:202-209 | A connection that goes on keeps its slot; the slot of one that is over becomes the first free one, reset |
| Protocol.FirstBest | src/kitserv.c:161-176 | The first worker with the greatest score |
| Protocol.SelectClientWorker | src/kitserv.c:161-176 | The loop returns it |
| Protocol.CapacityIsEnough | src/kitserv.c:263-280 | The workers together have at least the slots asked for and less than one each in excess |
| Protocol.StepKeeps | src/kitserv.c:98-249 | Every step of every thread keeps slots, queues, batches, free lists and descriptors in order |
| Protocol.RunsAreGood | src/kitserv.c:98-249 | So does every interleaving, from the start on |
| Protocol.EverySlotHasOneHolder | src/kitserv.c:45-51 | In every reachable state a slot is on the free list, with one accepter, in one queue under one descriptor, being retired, or lost, and only one of these |
| Protocol.FreeListsAreInOrder | src/kitserv.c:45-51 | The count is the length of a list without duplicates, whose slots are reset |
| Protocol.EverySocketHasOneUser | src/kitserv.c:202-246 | A descriptor is open exactly if some accepter or connection uses it, and then only one does |
| Protocol.StrayCloseIsHarmlessIff | src/http.c:1279 | A descriptor closed by mistake leaves the server in order exactly if no accepter and no connection uses it |
| Protocol.StrayRunsAreReachableIff | src/http.c:1279 | A run with descriptors closed by mistake stays within the reachable states, with all that holds of them, exactly as long as none of them is a socket in use |
| Protocol.StrayIsAStepIff | src/http.c:1279 | Closing a descriptor by mistake is a step to a reachable state exactly if it is no socket in use |
| Protocol.RegisteredSlotsAreInUse | src/kitserv.c:202-246 | A registered slot is not free, works with the descriptor it is registered under, and no other registration has that descriptor or that slot |
| Protocol.BatchesStayLive | src/kitserv.c:194-211 | Events not handled yet are about slots that are still registered |
| Protocol.RetirementIsSafe | src/kitserv.c:203-209 | A worker unregisters what is registered, closes its own open descriptor, and pushes a reset slot that is not free |
| Protocol.KeptAlive | src/kitserv.c:202-204 | A connection that is not over stays registered under its open descriptor, and the worker goes on with its batch |
| Protocol.Retires | src/kitserv.c:204-209 | A connection that is over is taken out of the queue, its socket closed, and its slot pushed first on the free list, by the worker's next four steps |
| Protocol.RetiresOnlyWhatIsOver | src/kitserv.c:202-209 | In every run a worker is retiring a connection exactly if the last one it served was over |
| Protocol.RegisteredUntilUnregistered | src/kitserv.c:202-209 | A registration stays until the worker takes it back |
| Protocol.RegistersOrLoses | src/kitserv.c:244 | Registering puts the slot into the queue under its descriptor, or loses it |
| Protocol.TakesFromTheBest | src/kitserv.c:217-242 | An accepter takes the first slot of the first worker with the greatest score, or none if that worker has none left |
| Protocol.HandOutIsSafe | src/kitserv.c:98-130 | A slot that is handed out was free, is unused, and has no other holder |
| Protocol.AcceptersNeverGetStuck | src/kitserv.c:217-249 | Every step an accepter is about to take can be taken; no descriptor it registers is registered already |
| Protocol.LostForGood | src/kitserv.c:244 | After a failed registration slot and socket stay out of use in every continuation |
| Protocol.RunsAreNotOverrated | src/kitserv.c:147-159 | With one accepter a worker always has at least the free slots that were observed |
| Protocol.RefusedOnlyWhenFull | src/kitserv.c:229-242 | A single accepter refuses a connection only if every worker was full when it was scored |
| Protocol.TwoAcceptersCanRefuseTooMuch | src/kitserv.c:229-242 | Two accepters can refuse a connection that observed free slots while one is still free |
| Protocol.UnfairExactlyWithTwo | src/kitserv.c:229-242 | For every number of workers and slots, a refusal although free slots were observed is reachable exactly if there are at least two accepters |
| Protocol.TwoCanBeUnfair | src/kitserv.c:229-242 | With two accepters one observes free slots and is refused after the other has taken them all |
| Protocol.FillAll | src/kitserv.c:217-249 | One accepter alone can go on until no slot is free |

## Left out

- Splitter.ChunkingIndependence: a statement about bytes; streams in which errors or the end of file occur between them are the subject of `Clients.Client.RecvRequest`, which says exactly when they hang up.
- Connections.Connection.DoServe: a handler is a script of calls; static files, with `stat`, `open`, fallback paths, dates and 304, are not modelled, so no step changes the method to HEAD.
- Connections.Connection.Apply: calls that only read fields, compare dates or save the handler's own pointer are not modelled.
- Protocol.StepKeeps: the stray close of descriptor 507 (src/http.c:1279) is not one of its steps; runs with it are the subject of `Protocol.StrayRunsAreReachableIff`.
- Protocol.RunsAreGood: the same.
- Protocol.EverySocketHasOneUser: the same; after a stray close of a socket in use it is false.
- Protocol.CapacityIsEnough: sums are unbounded integers; the source's would wrap above 2^31.
- ApiTrees.WalkAsMeant: the walk stops with its own outcome where the code would read behind the path or behind the subtrees of the root.
- Sockets, the event queue, threads, signals, barrier and start-up (`src/socket.c`, `src/queue.c`, `src/main.c`): represented by the outcomes of their calls. Edges of the event queue are not modelled, only that a connection waits after a refused call.
- `src/buffer.c`: its growth is not part of this model; a body is a byte sequence that grows as `src/include/buffer.h` promises.
- `sendfile_emulation` is not compiled on Linux.
- Status lines, error texts, and the value of the allow header are parameters (`Responses.Texts`); the text of an error depends on the path and the status. The start line is not bounded by its own buffer.
- `vsnprintf` does not fail; formatting other than decimal numbers and concatenation is left out, and so is logging.
- Header values are printed as given: a value that contains line ends is not refused by the code, and the block is a concatenation of fields with such values too.
- `prefix_length` is taken to be the length of the prefix.
- At the start of a transaction the null `req_parse_iter` counts as not past the end of the buffer.
- A file's content does not change while it is sent, and each descriptor comes with its content when a handler sets it.
- Values of `errno` other than would-block are one kind of error.
