# A verified model of the webserv HTTP server

The server reads requests from non-blocking sockets, one `recv` at a time, and everything it does with them is
done by objects that change step by step while the octets trickle in. This project models the parts of it where
that is hard to get right, and proves for each of them that the step-by-step code agrees with a simple description
of the whole input:

- **bodies**: the chunked transfer coding (section 7.1 of RFC 9112) and bodies of declared length, as uploads
  are decoded from a buffer that fills in arbitrary pieces;
- **heads**: the request line and header fields (sections 3 and 5 of RFC 9112), and whole uploads, head and body,
  on one connection;
- **CGI output** (section 6 of RFC 3875) and files, on their way through the response queue to the client;
- **connections**: flags, timeouts, and the one request of a connection;
- **the event loop**: the index from descriptors to clients while descriptors are closed and reissued;
- **the configuration file**: tokens, the parser with its shared cursor, the order of directives, inheritance;
- **routing**: path normalisation, the choice of a location, and the file that a target becomes.

An octet is a `char`, so the theorems hold for all octet values. What the operating system answers (how much `recv`
and `send` transfer, which descriptors `accept` and `socketpair` return, which events `epoll_wait` reports) is
arbitrary, except that a new descriptor is one that is not open.

## Files

Code that changes state is a class, proved against a value semantics in a module of its own, about which the theorems
are stated. The one `Client` of the source appears as three classes, each with the fields that its theorems are about:
the parser's, the flags and stamps, and the sockets; UploadConnection.dfy puts the parser and the body reader together on
one buffer.

| code | classes | semantics and theorems |
|---|---|---|
| BinaryBuffer, number syntax | BinaryBuffer.dfy | Octets.dfy, Numbers.dfy |
| ARequest-body | ARequestBody.dfy | ChunkedCoding.dfy, ChunkedLimits.dfy, ChunkedCuts.dfy, ChunkedRefusals.dfy, ChunkedFile.dfy, IdentityCoding.dfy, FileWrites.dfy |
| Client-parse | ClientParse.dfy | HeadParsing.dfy, HeadGrammar.dfy |
| RequestPOST, uploads | Upload.dfy, UploadConnection.dfy | Upload.dfy |
| ARequest-cgi, Response | ARequestCgi.dfy | CgiRelay.dfy, CgiWire.dfy, Responses.dfy |
| RequestGET | FileResponse.dfy | FileResponse.dfy |
| Client | ClientConnection.dfy | Connection.dfy, ConnectionRules.dfy, RequestState.dfy |
| Server | Server.dfy | Server.dfy |
| ConfFile | ConfFile.dfy | ConfTokens.dfy, ConfGrammar.dfy, ConfRoundTrip.dfy, ConfOutcome.dfy |
| LocationBlock, ServerBlock | LocationBlocks.dfy | Settings.dfy, ItemOrder.dfy, Inheritance.dfy |
| Path, ServerBlock, ARequest, ft | Paths.dfy, Routing.dfy, UriDecoding.dfy | Paths.dfy, Routing.dfy, UriDecoding.dfy |
| concrete inputs | | Instances.dfy |

`dafny verify dfyconfig.toml` checks all of it.

## What the proofs brought to light

Where the code does not do what one would expect of it, the model follows the code; a lemma says exactly when it does
what was meant, and another gives an input at which it does not.

- The file branch of `_writeChunk` writes `_contentLength` octets and not the `size` it is given
  (srcs/Request/ARequest-body.cpp:76, unlike the CGI branch at line 68): the file is the body only if no read ends
  inside the data of a chunk, and for a declared length only if the first call settles the transfer
  (`ChunkedFile.FileExactly`, `IdentityCoding.FileExactly`; `Instances.FileOfCutChunk`, `Instances.FileOfTwoReads`).
- `BinaryBuffer::compare` looks at the common prefix only, so a read that ends behind a `0` CRLF ends the transfer,
  whatever follows (`ChunkedCuts.Confluence`). A last chunk with trailers therefore ends in success when a read ends
  there and makes the transfer wait for ever when none does (`ChunkedCuts.UnrecognisedExactly`;
  `Instances.TrailersDependOnCuts`); with two zeros it always waits (`ChunkedCuts.TwoZerosAlwaysWait`;
  `Instances.TwoZeros`).
- The int32_t total of a chunked body can wrap for maxima of 2^30 and more, and then more than the maximum is delivered
  (`ChunkedLimits.AccountedExactly`; `Instances.TotalWraps`).
- A body of declared length is refused when the read that completes it brings octets beyond it
  (`Uploads.DeclaredUploadExactly`; `Instances.DeclaredAndMore`).
- Lengths may be empty (zero), signed, and preceded by white space or, in chunks, by 0x (`Numbers.LengthExactly`;
  `Instances.OddLengths`).
- A request line of exactly 4096 octets is refused when a read ends inside its CRLF (`HeadParsing.Fragmentation`;
  `Instances.LongLineCut`).
- After a CGI header line without ": ", the client gets what the same read brought behind that line, and nothing that a
  later read brings (`CgiRelay.CutsExactly`; `Instances.MalformedInTwoReads`).
- `client_max_body_size 4294967295` in a location means "inherit" (`Inheritance.OwnMaximumExactly`;
  `Instances.BiggestSizeInherits`).
- An `error_page` before the `root` of its server is dropped silently (`ItemOrder.RootAndErrorPageExactly`;
  `Instances.PageBeforeRoot`).
- A double slash in the part of a target that the location matches shifts the file path (`Routing.RebasingExactly`;
  `Instances.DoubleSlashShifts`).
- A client whose registration with epoll fails stays in the list with a closed socket and without an entry in the index
  (srcs/Server.cpp:242-244; `EventLoop.Server.AddConnection`).

## Model

| member | source | states |
|---|---|---|
| ChunkedCoding.RoundTrip | srcs/Request/ARequest-body.cpp:102-193 | every body in the chunked coding, however the stream is cut into reads, is delivered exactly and the transfer ends in success; more octets may follow |
| ChunkedCuts.Confluence | srcs/Request/ARequest-body.cpp:102-193 | every cutting of every stream, malformed ones included, gives the sink, status and running state of a single read, if and only if no read ends where an encoding has come up to `0` CRLF, perhaps with octets of the CRLF that is due, and other octets follow; then the cutting has ended in success and the single read waits, both with the same sink |
| ChunkedCuts.HastyExactly | srcs/Request/ARequest-body.cpp:146-159 | the decoder ends a transfer too early if and only if the stream and its cuts are of that kind: whatever the chunks and the maximum |
| ChunkedCoding.DrainExtends | srcs/Request/ARequest-body.cpp:103-191 | a call on a buffer and another on what arrives later equal one call on both together |
| ChunkedCoding.DecodeEncoded | srcs/Request/ARequest-body.cpp:103-191 | one call on an encoding delivers its payload, counts it, and clears the buffer |
| ChunkedCoding.StandardIsAccepted | srcs/Request/ARequest-body.cpp:132-145 | a size line in hexadecimal digits, of either case and with leading zeros, is read as the length of the data |
| ChunkedCoding.EncodeWhole | srcs/Request/ARequest-body.cpp:132-139 | every body has a standard encoding, by the shortest hexadecimal numeral of its length |
| ChunkedCoding.SpeltIsStandard | srcs/Request/ARequest-body.cpp:132-145 | a size printed with digits of either case, and with any zeros before them, is such a size line |
| ChunkedCoding.RoundTripInAnyCase | srcs/Request/ARequest-body.cpp:102-193 | the round trip for every way to print the sizes |
| ChunkedRefusals.RefusalExactly | srcs/Request/ARequest-body.cpp:104-175 | a stream in one piece is refused if and only if accepted chunks, or none, are followed by what is refused: with 413 for a chunk beyond the maximum, and with 400 for an empty size line, one that is no length, a zero that is not spelt with zero first, or other octets than CRLF behind the data |
| ChunkedRefusals.DrainBehind | srcs/Request/ARequest-body.cpp:104-190 | a call passes over the chunks that it accepts, whatever follows them |
| ChunkedLimits.AcceptsExactly | srcs/Request/ARequest-body.cpp:102-193 | a stream in one piece is accepted with a body if and only if it starts with an encoding of that body, in chunks that pass the size test, whose last CRLF may lack octets; for every maximum |
| ChunkedLimits.RunAccounts | srcs/Request/ARequest-body.cpp:165-190 | in every state of every run, delivered octets plus the rest of the chunk are the total, and at most the maximum |
| ChunkedLimits.TooLargeExactly | srcs/Request/ARequest-body.cpp:166-174 | a chunk beyond what the maximum leaves ends in 413 with nothing delivered, and one within it is taken |
| ChunkedLimits.AccountedExactly | srcs/Request/ARequest-body.cpp:166-174 | every run keeps the accounts, and so delivers at most the maximum, if and only if the maximum is below 2^30 |
| ChunkedLimits.TwiceDelivered | srcs/Request/ARequest-body.cpp:166-174 | for every greater maximum a run of two chunks of that size is accepted and delivers both: the int32_t total has wrapped |
| ChunkedLimits.OverflowDetected | srcs/Request/ARequest-body.cpp:166-174 | every overflow of the maximum is refused if and only if the maximum is below 2^30 |
| ChunkedLimits.FitsExactly | srcs/Request/ARequest-body.cpp:166-174 | below 2^30 the chunks of a body pass the size test if and only if the whole body is within the maximum |
| ChunkedLimits.SavedIsEncoding | srcs/Request/ARequest-body.cpp:102-193 | whatever ends in success was an encoding of exactly what was delivered, in chunks that pass the size test, for every maximum |
| ChunkedCuts.UnrecognisedExactly | srcs/Request/ARequest-body.cpp:146-159 | a last chunk followed by trailers, or spelled with more than one zero, in every cutting: the whole body is delivered, and the transfer waits if and only if no read ends where what has come behind the body looks like an end; otherwise it ends in success |
| ChunkedCuts.UnrecognisedForEver | srcs/Request/ARequest-body.cpp:146-159 | such an end stays one whatever follows: the transfer that waits waits for ever |
| ChunkedCuts.TwoZerosAlwaysWait | srcs/Request/ARequest-body.cpp:146-159 | with two zeros the transfer waits in every cutting |
| ChunkedFile.FileExactly | srcs/Request/ARequest-body.cpp:66-78 | the file branch writes the remaining chunk length and not the octets it is given: the octets of the file are the body if and only if no read ends inside the data of a chunk, and otherwise the file is longer |
| ChunkedFile.WritesExactly | srcs/Request/ARequest-body.cpp:66-78 | the same for every stream: the file is what was delivered, octet for octet, exactly when no call ends waiting for the rest of a chunk |
| ChunkedFile.AskedExactly | srcs/Request/ARequest-body.cpp:66-78 | the same for the number of octets |
| ChunkedFile.MidChunkExactly | srcs/Request/ARequest-body.cpp:177-190 | the decoder waits for data exactly at the offsets of an encoding that lie inside the data of a chunk |
| IdentityCoding.Conservation | srcs/Request/ARequest-body.cpp:80-100 | over any reads, delivered and remaining octets make the declared length until the end; the sink is always a prefix of what came |
| IdentityCoding.TakeConserves | srcs/Request/ARequest-body.cpp:80-100 | one read: less than the rest goes on, exactly the rest succeeds, more adds nothing and is a bad request |
| IdentityCoding.SucceedsExactly | srcs/Request/ARequest-body.cpp:80-100 | a declared body is accepted if and only if some read ends exactly where it ends, and is then delivered in order |
| IdentityCoding.FileExactly | srcs/Request/ARequest-body.cpp:76-88 | a file of declared length is what was delivered, octet for octet, if and only if the first call settles the transfer, and otherwise longer |
| FileWrites.Written | srcs/Request/ARequest-body.cpp:76-76 | a write of more octets than the buffer holds adds what lies behind it in memory |
| RequestBody.ARequest.constructor | srcs/Request/RequestPOST.cpp:10-13 | a request starts in the initial state of the decoder of its transfer, with what the head has left in the buffer |
| RequestBody.ARequest.WriteChunk | srcs/Request/ARequest-body.cpp:66-78 | the sink gets `size` octets of the buffer; the file gets as many as remain, whatever is in the buffer; a CGI takes a prefix of the octets or the call fails |
| RequestBody.ARequest.SaveFile | srcs/Request/ARequest-body.cpp:39-64 | a saved body answers 201, or 500 when the file cannot be moved, and a CGI body 200 |
| RequestBody.ARequest.ReadContent | srcs/Request/ARequest-body.cpp:80-100 | the method refines the decoder of declared length: fields, flags, status, answer, and what the file gets |
| RequestBody.ARequest.ReadEndOfChunk | srcs/Request/ARequest-body.cpp:104-124 | the CRLF after a chunk is consumed, waited for, or refused |
| RequestBody.ARequest.AgreesWithPrefix | srcs/Request/ARequest-body.cpp:152-157 | the table of shorter terminators agrees with the buffer if and only if one of its entries does |
| RequestBody.ARequest.ReadEndOfTransfer | srcs/Request/ARequest-body.cpp:146-164 | a size line of zero ends the transfer, waits or is refused, by the comparison of the common prefix |
| RequestBody.ARequest.ReadChunkSize | srcs/Request/ARequest-body.cpp:126-175 | the size line is read, refused or waited for; the buffer loses exactly the line |
| RequestBody.ARequest.ReadChunkData | srcs/Request/ARequest-body.cpp:177-190 | the sink grows by what the chunk still needs of the buffer, the file by the length of the chunk |
| RequestBody.ARequest.ReadChunked | srcs/Request/ARequest-body.cpp:102-193 | the loop refines one call of the decoder, writes what the theorems on files say, and each pass shortens the buffer |
| RequestBody.ARequest.WorkIn | srcs/Request/RequestPOST.cpp:149-155 | one call of either reader, as the transfer was announced |
| RequestBody.ARequest.HandleRead | srcs/Client/Client.cpp:136-149 | a read appended to the buffer and, unless the work-in flag is set, one call: object and file follow the run that the theorems speak of |
| Numbers.NumeralLength | srcs/utils.cpp:111-127 | a numeral of any length is its value, or "too large" beyond int32_t |
| Numbers.NumeralValue | srcs/utils.cpp:111-127 | printing a number in either radix and reading it gives the number |
| Numbers.NumeralInAnyCase | srcs/utils.cpp:111-127 | and so does reading it with any letters in upper case and any zeros before it |
| Numbers.DigitTable | srcs/utils.cpp:115-116 | a digit is worth its place in `0123456789abcdef` or `0123456789ABCDEF`, up to the radix, and no other character is one |
| Numbers.ValueOfNext | srcs/utils.cpp:115-116 | values are positional: one more digit multiplies by ten or sixteen and adds its place |
| Numbers.SpaceTable | srcs/utils.cpp:115-116 | white space is the six characters of `isspace` |
| Numbers.StrtolNumeral | srcs/utils.cpp:115-119 | a numeral is read to its end and saturates at the largest `long` |
| Numbers.LengthExactly | srcs/utils.cpp:111-127 | a string is accepted as a length exactly if it spells one, where nothing at all counts as zero, and white space, a plus sign and for chunks a 0x mark may stand before the digits |
| Numbers.LengthValue | srcs/utils.cpp:111-127 | a string that spells a length is worth the value of its digits, unless that is negative or beyond int32_t |
| Octets.Find | srcs/BinaryBuffer.cpp:65-72 | the first occurrence, or none at all |
| Octets.FindExtends | srcs/BinaryBuffer.cpp:65-72 | what was found stays at its offset when the buffer grows |
| BinaryBuffers.BinaryBuffer.Erase | srcs/BinaryBuffer.cpp:155-162 | exactly the octets of the range are removed; a position beyond the end removes nothing |
| BinaryBuffers.BinaryBuffer.Compare | srcs/BinaryBuffer.cpp:119-121 | zero if and only if the buffers agree on their common prefix |
| BinaryBuffers.MemCmp | srcs/BinaryBuffer.cpp:119-121 | the sign is that of the first difference |
| BinaryBuffers.BinaryBuffer.RFind | srcs/BinaryBuffer.cpp:86-105 | the last occurrence at the position or before it, or none |
| HeadParsing.Fragmentation | srcs/Client/Client-parse.cpp:3-142 | every cutting of a stream gives the same status, fields and unread octets as one read, unless a read ends between the CR and the LF of a request line of exactly 4096 octets: then it is refused with nothing parsed |
| HeadParsing.HeadersExtends | srcs/Client/Client-parse.cpp:113-142 | header lines read in two calls are those read in one |
| HeadGrammar.RoundTrip | srcs/Client/Client-parse.cpp:3-142 | a printed request is parsed to its method, target, query, version and fields, and the body is left unread, in every cutting that does not trip the line limit |
| HeadGrammar.AcceptsExactly | srcs/Client/Client-parse.cpp:3-142 | the parser completes a head if and only if the stream begins with the print of a request, and says of it what was printed |
| HeadGrammar.RefusedExactly | srcs/Client/Client-parse.cpp:50-106 | 405 if and only if the method is none of the five; 505 if and only if method and target are fine and the version is another one; everything else that fails is 400 |
| HeadGrammar.HeadersRefusedExactly | srcs/Client/Client-parse.cpp:113-142 | header lines are refused, always with 400, if and only if one of them is no field, or the empty line comes without a Host before it |
| HeadGrammar.TooLongExactly | srcs/Client/Client-parse.cpp:36-48 | a line beyond 4096 octets is 400, complete or not; a shorter one that is not complete is waited for |
| HeadGrammar.PlainIsOneLine | srcs/Client/Client-parse.cpp:36-48 | text without CR is a line of its own: such requests and fields are well formed |
| HeadGrammar.ShortLinesNeverTrip | srcs/Client/Client-parse.cpp:36-46 | a request line shorter than the limit is never refused for its length |
| ClientParsing.Client.ParseRequestLine | srcs/Client/Client-parse.cpp:33-111 | the method refines the request-line parser, with flags, status and all fields |
| ClientParsing.Client.ParseLine | srcs/Client/Client-parse.cpp:52-71 | the method name is cut off and looked up |
| ClientParsing.Client.ParseTarget | srcs/Client/Client-parse.cpp:73-86 | the target is cut off and must begin with a slash |
| ClientParsing.Client.ParseQuery | srcs/Client/Client-parse.cpp:88-93 | the query leaves the target |
| ClientParsing.Client.ParseVersion | srcs/Client/Client-parse.cpp:95-108 | an empty version is 400, another one 505 |
| ClientParsing.Client.ParseHeaderLine | srcs/Client/Client-parse.cpp:122-139 | a line is a field, the end of the head, or refused; a head without Host is refused |
| ClientParsing.Client.ParseHeaders | srcs/Client/Client-parse.cpp:113-142 | the loop refines the header parser |
| ClientParsing.Client.HandleRead | srcs/Client/Client-parse.cpp:3-20 | a read and the parsing after it, guarded by the read bits |
| ClientParsing.Client.HandleReads | srcs/Client/Client.cpp:243-254 | the object follows every run of reads |
| Uploads.ChunkedUpload | srcs/Client/Client.cpp:243-263 | from the first octet of the connection on, in any cutting of head and chunked body, the request is given exactly the body and the transfer succeeds; the file is the body if and only if no read ends inside the data of a chunk |
| Uploads.DeclaredUploadExactly | srcs/Client/Client.cpp:243-263 | an upload of declared length succeeds if and only if some read of the connection ends where the body ends, and has then been given exactly the body; otherwise it is a bad request; the file is what the request was given if and only if no read ends within the body |
| UploadConnections.Connection.HandleRead | srcs/Client/Client.cpp:243-263 | parser, request and body reader, which share one buffer, follow the upload that the theorems speak of, through the read that completes the head |
| UploadConnections.Connection.HandleReads | srcs/Client/Client.cpp:243-263 | the same over every run of reads |
| UploadConnections.Connection.BeginUpload | srcs/Request/RequestPOST.cpp:97-120 | the complete head decides on refusal or transfer, and the request takes what the buffer still holds |
| UploadConnections.Connection.HandleChunkedUpload | srcs/Client/Client.cpp:243-263 | after all reads of a chunked upload the object holds exactly the body and answers 201, or 500 when the file cannot be moved; its file is the body if and only if no read ended inside the data of a chunk |
| UploadConnections.Connection.HandleDeclaredUpload | srcs/Client/Client.cpp:243-263 | after all reads of a declared upload the object answers 400 if and only if no read ended where the body ends, and holds the body otherwise |
| Uploads.HeadThenBody | srcs/Client/Client.cpp:251-263 | the read that completes the head leaves the beginning of the body, and the pieces that the request gets make up the body |
| Uploads.TransferOf | srcs/Request/RequestPOST.cpp:61-94 | chunked exactly without Content-Length and with that Transfer-Encoding; a declared length lies between 1 and the maximum |
| Uploads.AnnouncementExactly | srcs/Request/RequestPOST.cpp:61-94 | 411 if and only if neither field is there, 415 for another coding, 400 for what spells no length, 413 for a length beyond the maximum, 204 for zero; everything else is accepted |
| Uploads.PrintedLengthAnnounces | srcs/Request/RequestPOST.cpp:77-91 | a printed length within the maximum is announced as that length |
| Uploads.RequestPOST.CheckHeaders | srcs/Request/RequestPOST.cpp:61-94 | status, transfer and initial decoder state follow the announcement |
| CgiRelay.Fidelity | srcs/Request/ARequest-cgi.cpp:6-94 | in every run, however reads and partial sends interleave, sent and queued octets are the serialised head and then exactly the CGI body, with nothing before the head; after a malformed line they are the 500 head and then exactly what the same read brought behind that line |
| CgiRelay.SameWire | srcs/Request/ARequest-cgi.cpp:6-40 | two runs that received the same octets, which decide the head or spoil it, put the same octets on the wire |
| CgiRelay.Delivered | srcs/Client/Client.cpp:216-241 | when the queue is empty the client has exactly what the specification says |
| CgiWire.PrintedWire | srcs/Request/ARequest-cgi.cpp:42-94 | octet for octet: an output of fields, an empty line and a body reaches the wire as `HTTP/1.1 `, the status line that the Status field asks for, or `200 OK`, the last value of every other name in the order of the names, an empty line and the body |
| CgiWire.MalformedWire | srcs/Request/ARequest-cgi.cpp:80-88 | with a line that is no field it is the 500 head without fields, and what is read behind the line |
| CgiWire.UnfinishedWire | srcs/Request/ARequest-cgi.cpp:15-23 | without an empty line it is the 500 head |
| CgiWire.LessExactly | srcs/Response.cpp:45-53 | the fields come in the order of std::string: by the first difference, or the end of the shorter name |
| CgiRelay.SendTakes | srcs/Client/Client.cpp:216-241 | a send takes what the socket takes of the first 65536 octets of the queue |
| CgiRelay.ScanPrinted | srcs/Request/ARequest-cgi.cpp:57-94 | printed header lines are read as their fields, and the rest as the body |
| CgiRelay.ScanExtends | srcs/Request/ARequest-cgi.cpp:63-92 | header lines read in pieces are those read at once |
| CgiRelay.CutsExactly | srcs/Request/ARequest-cgi.cpp:6-94 | for all fields, outputs, cuttings and sends: once the whole output has been read, the wire is that of a single read if and only if the output has no header line without ": ", or nothing is read after the read that completes that line |
| CgiRelay.HeardExactly | srcs/Request/ARequest-cgi.cpp:6-40 | a relay receives the whole output under the same condition, and otherwise a prefix that ends with a read behind the malformed line |
| CgiRelay.MalformedDependsOnReads | srcs/Request/ARequest-cgi.cpp:80-88 | a malformed line and what follows it, in one read and in two |
| Responses.PutSorts | srcs/Response.cpp:68-70 | setting a field keeps the fields sorted, replaces one of its name, and keeps all others |
| CgiHandling.CgiRequest.FinishHeaders | srcs/Request/ARequest-cgi.cpp:66-74 | a Status field becomes the status line and leaves the fields |
| CgiHandling.CgiRequest.ParseCGIHeaders | srcs/Request/ARequest-cgi.cpp:57-94 | the loop refines the header scan, with flags, fields and queue |
| CgiHandling.CgiRequest.ReadCGI | srcs/Request/ARequest-cgi.cpp:6-40 | one input event, for each answer of `recv` |
| CgiHandling.CgiRequest.SendResponse | srcs/Client/Client.cpp:216-241 | a partial send takes a prefix of the queue, a failing one nothing; done exactly when the queue is empty and the work complete |
| FileResponse.Conservation | srcs/Request/RequestGET.cpp:63-75 | at every step of every run, sent and queued octets are the head and the file as far as it was read; a finished run has sent head and file |
| FileResponse.Terminates | srcs/Client/Client.cpp:281-294 | under positive sends every run finishes within as many events as there are octets, and one |
| FileResponse.Delivered | srcs/Client/Client.cpp:281-294 | a GET answer reaches the client completely, whatever the sizes of the sends |
| FileResponse.ProduceExactly | srcs/Request/RequestGET.cpp:63-75 | an event reads the next 65536 octets of the file, or what is left, and completes the work only at its end |
| FileResponse.ConsumeExactly | srcs/Client/Client.cpp:216-241 | a send takes what the socket takes of the first 65536 octets of the queue |
| FileResponse.RequestGET.constructor | srcs/Request/RequestGET.cpp:12-16 | the flags of a GET leave only the sending to do |
| FileResponse.RequestGET.ReadFile | srcs/Request/RequestGET.cpp:63-75 | the next part of the file is queued, or its end is noticed |
| FileResponse.RequestGET.SendResponse | srcs/Client/Client.cpp:216-241 | the consumer of the queue, for partial and failing sends |
| FileResponse.RequestGET.HandleSocketOut | srcs/Client/Client.cpp:281-294 | one event; an error exactly when a send fails, DONE exactly when the run is finished |
| Connection.LifeOfConnection | srcs/Client/Client.cpp:243-390 | over every run from acceptance on, the read bits are 0, 1, 3 or 7, one request at most is built and never after the headers timed out, a CGI belongs to it, and at most one tick answers with status 408 |
| Connection.AtMostOne408 | srcs/Client/Client.cpp:330-367 | the number of ticks that answer with status 408, and those before, is at most one |
| Connection.TickAnswers | srcs/Client/Client.cpp:330-390 | told by bits, stamps and limits alone: a tick answers 408 if and only if head or body are late, 504 if and only if a CGI is silent instead, with all work complete but the reading of a page, and changes nothing otherwise |
| Connection.RunAdvances | srcs/Client/Client.cpp:243-390 | from any state of the invariant, every run keeps it and clears no sticky flag |
| Connection.PhasesInOrder | incs/RequestContext.hpp:21-81 | the read bits pass through their phases in order, and the last one is final |
| Connection.TickAdvances | srcs/Client/Client.cpp:330-367 | one tick keeps the invariant, and a timeout of head or body happens only to a connection that had none |
| Connection.SocketInAdvances | srcs/Client/Client.cpp:243-279 | one input event keeps the invariant |
| ConnectionRules.RunWritesLate | srcs/Client/Client.cpp:204-279 | over every run nothing is written before the head is complete, and nothing to a request whose body is pending |
| ConnectionRules.ParseRule | srcs/Client/Client-parse.cpp:3-31 | flag word, status and request for every way in which a head goes on: refused, redirected, or handled |
| ConnectionRules.ConstructorWord | srcs/Request/RequestGET.cpp:12-16 | what each request class leaves to do |
| ConnectionRules.WorkedRule | srcs/Client/Client.cpp:256-278 | the answer begins if and only if no body is pending; the flag word, status and stamps it begins with |
| ConnectionRules.SocketInRule | srcs/Client/Client.cpp:243-279 | one input event: nothing, the head, or the body |
| ConnectionRules.SocketOutRule | srcs/Client/Client.cpp:281-294 | when the body of the answer is complete, and which stamp is set |
| ConnectionRules.CgiInRule | srcs/Request/ARequest-cgi.cpp:6-40 | the flag word after data, an empty line, a malformed line, the end and an error |
| ConnectionRules.CgiOutRule | srcs/Request/RequestPOST.cpp:165-172 | the flag word after the end of the transfer to the CGI |
| ClientConnection.FinishesExactly | srcs/Client/Client.cpp:216-279 | when an event ends the connection, in the terms of the handlers |
| ClientConnection.Client.ResolveARequest | srcs/Client/Client.cpp:152-201 | refusal, redirect or request, and whether parsing goes on |
| ClientConnection.Client.ParseRequestHead | srcs/Client/Client-parse.cpp:3-31 | parsing, resolving and the work-in flag |
| ClientConnection.Client.HandleSocketIn | srcs/Client/Client.cpp:243-279 | the handler refines the input step of the connection; a read that brings nothing or fails changes nothing and ends the connection |
| ClientConnection.Client.Work | srcs/Client/Client.cpp:256-278 | the request takes the body, and the answer is prepared |
| ClientConnection.Client.HandleSocketOut | srcs/Client/Client.cpp:281-294 | the handler refines the output step; an error when the send fails, DONE exactly when the queue is empty and the work complete |
| ClientConnection.Client.HandleCgiIn | srcs/Request/ARequest-cgi.cpp:6-40 | the CGI input step, for data, a malformed header line, the end and an error: flags, silence, status and answer |
| ClientConnection.Client.HandleCgiOut | srcs/Request/RequestPOST.cpp:165-172 | the CGI output step |
| ClientConnection.Client.TimeoutCheck | srcs/Client/Client.cpp:330-390 | the three timeouts in their order, and when a connection ends |
| ClientConnection.Client.HandleEvents | srcs/Client/Client.cpp:243-390 | the object over the whole life of a connection, up to exactly the event that ends it, which is none of its CGI socket: its read bits are 0, 1, 3 or 7, it has built at most one request and never after the headers timed out, and at most one tick has answered with status 408 |
| EventLoop.Server.Routine | srcs/Server.cpp:67-143 | every entry of the batch that was reported is served, in order, for the client that owned its descriptor then: a read if it is readable, and a write if it is writable and the read went on; unless the client has left, whatever is closed and reissued meanwhile. Only a final answer or a signal cuts the batch short, and the clients that are left are exactly those that were neither dismissed nor ended by a timeout |
| EventLoop.Server.HandleBatch | srcs/Server.cpp:77-134 | the loop over the batch |
| EventLoop.Server.HandleClient | srcs/Server.cpp:96-133 | what an entry of a registered client leads to; an answer other than REQ_CONTINUE ends the batch, and the client exactly when it was given on its own socket |
| EventLoop.Server.Serve | srcs/main.cpp:41-49 | the index is exact in every reachable state |
| EventLoop.Server.HandleEvent | srcs/Server.cpp:77-134 | a listener accepts, an entry of a registered client is served, and any other leads to nothing |
| EventLoop.Server.RemoveConnection | srcs/Server.cpp:249-298 | the client leaves list and index, its sockets are closed and all its events neutralised, and nothing else changes; a hang-up of a CGI changes nothing |
| EventLoop.Server.RemoveInBatch | srcs/Server.cpp:249-298 | no event is left that a reissued descriptor could inherit |
| EventLoop.Server.Neutralise | srcs/Server.cpp:284-293 | exactly the entries of the two descriptors are cleared |
| EventLoop.Server.Unregister | srcs/Server.cpp:262-282 | index and open descriptors lose exactly the sockets of the client |
| EventLoop.Server.EraseClient | srcs/Server.cpp:296-296 | one client leaves the list, the others keep their order |
| EventLoop.Server.AddConnection | srcs/Server.cpp:227-247 | accepting is attempted, the new client stands first and owns its descriptor; the index stays exact if and only if the registration with epoll succeeds |
| EventLoop.Server.AddCGIToClientMap | srcs/Server.cpp:214-223 | the client is found if and only if it is in the list, and owns the descriptor then |
| EventLoop.Server.Register | srcs/Client/Client.cpp:181-196 | the parent end of a CGI is registered, and the client is always found |
| EventLoop.Server.Handle | srcs/Client/Client.cpp:161-201 | a handler; the one request that it may build on the client's own socket registers the parent end of its CGI pair, unless the kernel has none |
| EventLoop.Server.SocketPair | srcs/Request/RequestPOST.cpp:28-59 | two descriptors are asked for, and the pair is there if and only if both are |
| EventLoop.Server.OpenCgi | srcs/Request/RequestPOST.cpp:28-59 | a CGI socket was not open before, is open and registered, or there is none and the index is unchanged |
| EventLoop.Server.CheckClientsTimeout | srcs/Server.cpp:300-318 | every client is looked at once, in order, and exactly those that go on stay in the list |
| EventLoop.Server.RemoveAt | srcs/Server.cpp:309-314 | removing a client by its socket takes exactly it out of the list |
| EventLoop.Server.RemoveAll | srcs/Server.cpp:136-141 | the drain ends with no client and an empty index |
| EventLoop.ExactPartitions | srcs/Server.cpp:214-298 | an exact index has as keys the disjoint union of the sockets of the clients |
| Paths.NewPath | srcs/Path.cpp:13-30 | the constructor squeezes runs of slashes and splits the result into its segments |
| Paths.DropEmptySegments | srcs/Path.cpp:14-21 | the replacing loop gives the string with every run of slashes made one |
| Paths.SplitChunks | srcs/Path.cpp:23-29 | the token loop gives the non-empty segments |
| Paths.SqueezeIsSqueezed | srcs/Path.cpp:16-20 | no double slash is left |
| Paths.JoinChunks | srcs/Path.cpp:13-30 | a path in origin form is its chunks, each after a slash, and the slash at its end |
| Paths.PrefixMatch | srcs/Path.cpp:141-151 | the chunks of one path are a prefix of the other's |
| Routing.FindLocationBlock | srcs/ServerBlock.cpp:36-56 | the search, with its early return, finds the earliest of the locations with the longest match, and none exactly if none matches |
| Routing.BestIsLongest | srcs/ServerBlock.cpp:36-56 | every location that matches is a string prefix of the chosen one |
| Routing.MatchesExactly | srcs/Path.cpp:141-151 | matching by chunks is: the target, closed by a slash, begins with the location |
| Routing.RebasingExactly | srcs/Request/ARequest.cpp:14-24 | the file lies below the root where the chunks after the location's say, if and only if no double slash stands in the part of the target that is cut |
| Routing.PrefixExactly | srcs/Request/ARequest.cpp:16-17 | the cut part is the location without its slash, under the same condition |
| Routing.RestBoundary | srcs/Request/ARequest.cpp:17-17 | what is left of the target is then empty or begins with a slash |
| Routing.RebasedString | srcs/Request/ARequest.cpp:20-24 | the path is then the root without its slash, followed by the squeezed rest |
| Routing.Rebase | srcs/Request/ARequest.cpp:14-26 | the constructor cuts within the target, builds that path and decodes it |
| Routing.PlainFilePath | srcs/Request/ARequest.cpp:26-26 | without a percent sign the path is the rebased one |
| UriDecoding.RoundTrip | srcs/ft.cpp:21-46 | a string is decoded back from every spelling of it, with any of its octets escaped in digits of either case |
| UriDecoding.Escapable | srcs/ft.cpp:21-46 | every string of octets has a spelling with all of them escaped |
| UriDecoding.DecodesEverything | srcs/ft.cpp:21-46 | a percent sign takes any two characters behind it, those that are no digits as zero, and stands for itself when there are fewer |
| UriDecoding.DecodeURI | srcs/ft.cpp:34-46 | the loop decodes three octets for a percent sign with two octets behind it, and copies any other octet |
| Routing.Resolve | srcs/Client/Client.cpp:152-175 | the best location decides: not found exactly if none matches or the best has no root, then refused methods, then redirects; any other target is rebased onto the root of the best, and decoded |
| ConfTokens.LaysOutExactly | srcs/Configuration/ConfFile.cpp:54-76 | a line is cut into some tokens if and only if it lays them out, with white space where words would touch and any comment |
| ConfTokens.TokenizeRendered | srcs/Configuration/ConfFile.cpp:54-76 | any layout of tokens is cut into these tokens |
| ConfTokens.TokensAreTokens | srcs/Configuration/ConfFile.cpp:54-76 | every token is a metacharacter or a word without any |
| ConfTokens.CharTable | srcs/Configuration/ConfFile.cpp:54-62 | semicolon, braces, number sign and white space end a word |
| ConfRoundTrip.TextAcceptsExactly | srcs/Configuration/ConfFile.cpp:25-50 | a text is accepted with a result if and only if it is a layout of a syntax tree of that meaning |
| ConfRoundTrip.TextRoundTrip | srcs/Configuration/ConfFile.cpp:25-76 | any layout of a printable tree, with any comments, is parsed to the meaning of the tree |
| ConfRoundTrip.RoundTrip | srcs/Configuration/ConfFile.cpp:39-49 | parsing the tokens of any printable tree gives its meaning: the blocks with what they inherit, or the first error |
| ConfRoundTrip.AcceptsExactly | srcs/Configuration/ConfFile.cpp:39-49 | nothing but the tokens of a printable tree is accepted |
| ConfOutcome.EffectiveFile | srcs/Configuration/ConfFile-directives.cpp:5-94 | every accepted file, statement by statement: each of the three time limits is the number in the last statement of its own name, else 10, 60 and 60; an extension has the last type given to it; every server adds a block |
| ConfOutcome.EffectiveServer | srcs/Configuration/ConfFile-servers.cpp:6-115 | every accepted server: its hosts in order, else the default one, its names in order, and for each error code the last page named for it below the root that stands before it |
| ConfOutcome.AcceptedText | srcs/Configuration/ConfFile.cpp:25-50 | both of these for every text that is accepted |
| ConfOutcome.FileAccepted | srcs/Configuration/ConfFile.cpp:25-50 | a file is accepted if and only if each of its items is, told by the names, numbers and forms of the arguments |
| ConfOutcome.ServerAccepted | srcs/Configuration/ConfFile-servers.cpp:19-38 | a server is accepted if and only if its items are; an error page before any root is not looked at |
| ConfOutcome.LocationAccepted | srcs/Configuration/ConfFile-locations.cpp:22-38 | the statements of a location are accepted if and only if each of them is |
| ConfOutcome.StatementErrors | srcs/Configuration/ConfFile-locations.cpp:42-171 | which error a statement of a location leads to |
| ConfOutcome.CountsExactly | srcs/Configuration/ConfFile.cpp:78-106 | the arguments of a directive end before the first metatoken, or with the error that it makes |
| ConfRoundTrip.LocationPrinted | srcs/Configuration/ConfFile-locations.cpp:5-40 | a printed location is parsed to what it means, and what follows is left |
| ConfRoundTrip.ServerPrinted | srcs/Configuration/ConfFile-servers.cpp:6-44 | a printed server is parsed to what it means, and what follows is left |
| ConfFiles.ConfFile.Parse | srcs/Configuration/ConfFile.cpp:25-50 | the method refines the grammar, and its cursor ends exactly behind the last token |
| ConfFiles.ConfFile.TokenizeLine | srcs/Configuration/ConfFile.cpp:54-76 | the tokens of the line are added |
| ConfFiles.ConfFile.CountArgs | srcs/Configuration/ConfFile.cpp:78-91 | the number of arguments before the `;`, or the error |
| ConfFiles.ConfFile.CountBlockArgs | srcs/Configuration/ConfFile.cpp:93-106 | the number of arguments before the `{`, or the error |
| ConfFiles.ConfFile.Directive | srcs/Configuration/ConfFile.cpp:41-48 | one directive; the cursor is left on its `;` or `}` |
| ConfFiles.ConfFile.ServerDirective | srcs/Configuration/ConfFile-servers.cpp:6-44 | one block with its default host and inherited values is added; the cursor is left on its `}` |
| ConfFiles.ConfFile.ServerItems | srcs/Configuration/ConfFile-servers.cpp:19-38 | the items of a server, with `_root` always the root of the global location |
| ConfFiles.ConfFile.FinishServer | srcs/Configuration/ConfFile-servers.cpp:39-43 | the default host, and what the locations inherit |
| ConfFiles.ConfFile.ListenDirective | srcs/Configuration/ConfFile-servers.cpp:46-73 | one host is added; the cursor is left on the `;` that was counted |
| ConfFiles.ConfFile.ServerNameDirective | srcs/Configuration/ConfFile-servers.cpp:75-87 | the names are added in order; cursor on the `;` |
| ConfFiles.ConfFile.ErrorPageDirective | srcs/Configuration/ConfFile-servers.cpp:89-115 | the page below the current root is stored for every code, or nothing without a root; cursor on the `;` |
| ConfFiles.ConfFile.AddErrorPages | srcs/Configuration/ConfFile-servers.cpp:102-113 | every code from 400 to 599 gets the page; any other value is an error |
| ConfFiles.ConfFile.LocationDirective | srcs/Configuration/ConfFile-locations.cpp:5-40 | one location is added; cursor on its `}` |
| ConfFiles.ConfFile.LocationBody | srcs/Configuration/ConfFile-locations.cpp:22-38 | the directives of a location, in order, up to the `}` |
| ConfFiles.ConfFile.RootDirective | srcs/Configuration/ConfFile-locations.cpp:42-52 | the root is a directory path; cursor on the `;` |
| ConfFiles.ConfFile.AllowDirective | srcs/Configuration/ConfFile-locations.cpp:54-68 | every name must be a method, and all of them are allowed; cursor on the `;` |
| ConfFiles.ConfFile.ClientMaxBodySizeDirective | srcs/Configuration/ConfFile-locations.cpp:70-84 | a uint32_t is kept as int32_t; cursor on the `;` |
| ConfFiles.ConfFile.AutoindexDirective | srcs/Configuration/ConfFile-locations.cpp:86-99 | on or off; cursor on the `;` |
| ConfFiles.ConfFile.RedirectionDirective | srcs/Configuration/ConfFile-locations.cpp:101-117 | one of the redirect statuses and a body; cursor on the `;` |
| ConfFiles.ConfFile.IndexDirective | srcs/Configuration/ConfFile-locations.cpp:119-131 | the names are added in order; cursor on the `;` |
| ConfFiles.ConfFile.CgiDirective | srcs/Configuration/ConfFile-locations.cpp:133-147 | every extension is run by the last argument; cursor on the `;` |
| ConfFiles.ConfFile.ClientBodyUploadPathDirective | srcs/Configuration/ConfFile-locations.cpp:149-159 | a directory path; cursor on the `;` |
| ConfFiles.ConfFile.ClientBodyTempPathDirective | srcs/Configuration/ConfFile-locations.cpp:161-171 | a directory path; cursor on the `;` |
| ConfFiles.ConfFile.TimeoutDirective | srcs/Configuration/ConfFile-directives.cpp:5-63 | an int32_t that is not negative is written to the limit of the name; cursor on the `;` |
| ConfFiles.ConfFile.TypesDirective | srcs/Configuration/ConfFile-directives.cpp:65-83 | the entries in order; cursor on the `}` |
| ConfFiles.ConfFile.LoadType | srcs/Configuration/ConfFile-directives.cpp:85-94 | every extension gets the type; cursor on the `;` |
| ItemOrder.OrderIndependent | srcs/Configuration/ConfFile-servers.cpp:14-43 | rearranging a server block neighbour by neighbour never changes what it means, as long as no two locations, no two directives of one name, and no `root` and `error_page` pass each other |
| ItemOrder.Interleavings | srcs/Configuration/ConfFile-servers.cpp:14-43 | the same settings and the same locations give the same block, however they are interleaved |
| ItemOrder.RootAndErrorPageExactly | srcs/Configuration/ConfFile-servers.cpp:89-115 | a `root` and an `error_page` may change places if and only if a root was set before and the page lies at the same place below both |
| ItemOrder.EveryServerPagesNeedRoot | srcs/Configuration/ConfFile-servers.cpp:97-101 | no error page is ever stored before a root is known |
| ItemOrder.ApplyIsChange | srcs/Configuration/ConfFile-locations.cpp:42-171 | whether a directive is accepted, and what it changes, does not depend on the location |
| Inheritance.EffectiveSettings | srcs/LocationBlock.cpp:47-79 | in every accepted block, each of the eleven fields of each location is its own last value, else the server's, else the default; methods and indexes add up, and the last `cgi` that names an extension counts, the location's own as soon as it has any |
| Inheritance.OwnMaximumExactly | srcs/Configuration/ConfFile-locations.cpp:78-80 | a location's own maximum counts if and only if it is not 2^32 - 1, and is kept as written if and only if it is below 2^31 |
| Inheritance.LocationOutcome | srcs/Configuration/ConfFile-locations.cpp:22-32 | the last value of a name counts, lists add up, and the last `cgi` of an extension counts, for every way to write a location |
| Inheritance.ParsedLocationsAreConfigured | srcs/Configuration/ConfFile-locations.cpp:14-20 | every location of an accepted block begins and ends with a slash and is squeezed, and so is its root: the routing theorems apply |
| Inheritance.FillTwice | srcs/LocationBlock.cpp:47-79 | inheriting twice changes nothing |
| Settings.StoiNumeral | incs/ft.hpp:14-27 | a printed number within the limits is read as that number |
| Settings.StoiExactly | incs/ft.hpp:14-27 | a string is read as a number if and only if it spells that number, within the limits; the empty string counts as zero |
| LocationBlocks.LocationBlock.FillFrom | srcs/LocationBlock.cpp:47-79 | the method refines inheritance, field by field |
| LocationBlocks.LocationBlock.AllowMethod | srcs/LocationBlock.cpp:83-91 | the method is found by name, and its bit is set |
| LocationBlocks.LocationBlock.SetDirListing | srcs/LocationBlock.cpp:93-103 | only the two words are accepted |
| LocationBlocks.LocationBlock.SetRedirect | srcs/LocationBlock.cpp:109-124 | only redirect statuses are accepted |
| LocationBlocks.ServerBlock.FillLocations | srcs/ServerBlock.cpp:66-70 | every location inherits, in place |
| Instances.FileOfCutChunk | srcs/Request/ARequest-body.cpp:76-76 | one chunk of three octets cut behind the first: delivered, and written otherwise |
| Instances.FileOfTwoReads | srcs/Request/ARequest-body.cpp:76-88 | three declared octets in two reads: delivered, and written otherwise |
| Instances.TrailersDependOnCuts | srcs/Request/ARequest-body.cpp:146-159 | a trailer field: in one read the transfer waits, cut behind the `0` line it ends in success |
| Instances.TwoZeros | srcs/Request/ARequest-body.cpp:146-159 | `00` CRLF CRLF: the transfer waits |
| Instances.TotalWraps | srcs/Request/ARequest-body.cpp:166-174 | a maximum of 2^30, and two chunks of that size delivered |
| Instances.DeclaredAndMore | srcs/Request/ARequest-body.cpp:90-94 | two declared octets and one more: refused in one read, saved in two |
| Instances.OddLengths | srcs/utils.cpp:111-127 | the empty length, `+5`, ` 5` and `0x5` |
| Instances.LongLineCut | srcs/Client/Client-parse.cpp:36-46 | a request line of 4096 octets: accepted at once, refused when cut inside its CRLF |
| Instances.MalformedInTwoReads | srcs/Request/ARequest-cgi.cpp:80-88 | an octet behind a malformed line: relayed from the same read, lost from the next |
| Instances.BiggestSizeInherits | srcs/Configuration/ConfFile-locations.cpp:78-80 | `client_max_body_size 4294967295` leaves the location with the maximum of its server |
| Instances.PageBeforeRoot | srcs/Configuration/ConfFile-servers.cpp:97-101 | an `error_page` before the `root`: no page is stored |
| Instances.DoubleSlashShifts | srcs/Request/ARequest.cpp:14-24 | location `/a/`, root `/r/`: the target `//a/b` becomes `/r/a/b` |

## Left out

- RequestBody.ARequest.ReadChunked: does not say over a whole call what a CGI misses after short sends, which WriteChunk allows; and requires a buffer below 2^31 octets.
- RequestBody.ARequest.ReadContent: requires a buffer below 2^31 octets, where the cast of its size is exact.
- CgiHandling.CgiRequest.FinishHeaders: a Status value with fewer than three characters answers 500; the source reads beyond such a string.
- CgiRelay.Fidelity: the output queue is not rebuilt by a further input event of the client socket (srcs/Client/Client.cpp:270-273).
- FileResponse.Conservation: the same, and the file does not change while it is sent.
- EventLoop.Server.HandleEvent: new clients are registered with epoll without failure, since the index is not exact after one (see AddConnection); no `epoll_ctl` throws.
- ClientParsing.Client.ParseQuery: keeps the query line, and not the pairs it is split into (srcs/Queries.cpp:30-51), which nothing in the repository reads.
- ConfFiles.ConfFile.TimeoutDirective: one method for three handlers that differ in the entry they write.
- ConfFiles.ConfFile.Parse: takes the lines of the file, and so neither opening it nor `getline`.
- ConfFiles.ConfFile.ListenDirective: the address syntax of `inet_pton` is a parameter, and a host is opaque.
- Uploads.ChunkedUpload: the location serves the upload without a CGI, and no permission check refuses it; UploadConnections likewise.
- Permission checks, temporary files and the rest of `processing` in the request classes: answers of the file system, which the connection model leaves arbitrary.
- The PUT class, which announces and decodes bodies as POST does, and DELETE and HEAD, which decode none.
- Autoindex and error page HTML, status texts, MIME lookup, logging, and the CGI environment: formatting only.
- Choice of a server by the Host header, and binding of the listening sockets (srcs/Server.cpp:40-65,155-212).
- Completion of an answer when a configured error page is served before any request exists: the CGI flags are never set there.
- Line numbers in the error messages of the configuration parser.
