/** An upload on one connection, from its first octet on (srcs/Client/Client.cpp:243-275): the parser of the
    head and the reader of the body, which share the buffer, proved against module Uploads. */
module UploadConnections {
  import opened Octets
  import opened Numbers
  import opened RequestBody
  import opened ChunkedCoding
  import opened Uploads
  import H = HeadParsing
  import ClientParsing
  import HeadGrammar
  import opened FileWrites

  /** The sizes of the buffer are read as int32_t. */
  predicate Readable(u: Upload, piece: octets) {
    match u
    case Reading(h) => |H.Feed(h, piece).buffer| <= INT32_MAX
    case Taking(_, d, _) => |d.buffer + piece| <= INT32_MAX
    case Answered(_) => true
  }

  predicate AllReadable(u: Upload, pieces: seq<octets>, max: int)
    requires Sound(u)
    decreases pieces
  {
    pieces == [] || (Readable(u, pieces[0]) && AllReadable(Receive(u, pieces[0], max), pieces[1..], max))
  }

  class Connection {
    const parser: ClientParsing.Client
    const maxBodySize: int
    var request: ARequest?
    var chunked: bool
    var answered: bool
    var statusCode: int

    /** Parser and request are what the upload value `u` says. */
    ghost predicate Represents(u: Upload)
      reads this, parser, parser.buffer, request
      reads if request == null then {} else {request.context}
      reads if request == null then {} else {request.context.buffer}
    {
      match u
      case Reading(h) => request == null && !answered && parser.Represents(h) && !h.phase.Failed? && !h.phase.Complete?
      case Taking(chunked, d, file) =>
        && request != null && !answered
        && request.context.buffer == parser.buffer && request.context.maxBodySize == maxBodySize
        && this.chunked == chunked && request.Represents(d) && request.file == file
      case Answered(status) => answered && statusCode == status
    }

    constructor (maxBodySize: int)
      ensures fresh(parser) && fresh(parser.buffer) && this.maxBodySize == maxBodySize
      ensures request == null && Represents(Reading(H.START))
    {
      parser := new ClientParsing.Client();
      this.maxBodySize := maxBodySize;
      request := null;
      chunked, answered, statusCode := false, false, 0;
    }

    method Answer(status: int)
      modifies this`answered, this`statusCode
      ensures Represents(Answered(status))
    {
      answered, statusCode := true, status;
    }

    /** The head is complete: the request checks it, and takes what the buffer still holds. */
    method BeginUpload(ghost h: H.Head)
      requires request == null && !answered && parser.Represents(h) && |h.buffer| <= INT32_MAX
      modifies this, parser.buffer
      ensures Represents(Begin(h, maxBodySize))
      ensures request == null || (fresh(request) && fresh(request.context))
    {
      hide TransferOf, Drain;
      var post := new RequestPOST();
      var r := post.CheckHeaders(parser.headers, maxBodySize);
      if r != REQ_CONTINUE {
        Answer(post.statusCode);
        return;
      }
      chunked := post.chunked;
      var context := new RequestContext(parser.buffer, maxBodySize);
      request := new ARequest(context, false, post.contentLength);
      ghost var d := if chunked then START.Append(h.buffer) else DeclaredStart(post.contentLength).Append(h.buffer);
      request.WorkIn(chunked, d);
    }

    /** One read of the socket. */
    method HandleRead(piece: octets, ghost u: Upload)
      requires Sound(u) && Represents(u) && Readable(u, piece)
      modifies this, parser, parser.buffer, request, if request == null then {} else {request.context}
      ensures Represents(Receive(u, piece, maxBodySize))
      ensures request == old(request) || (request != null && fresh(request) && fresh(request.context))
    {
      hide Drain, H.Feed, Begin;
      if answered {
        return;
      }
      if request != null {
        request.HandleRead(piece, chunked, u.d);
        return;
      }
      parser.HandleRead(piece, u.head);
      ghost var h := H.Feed(u.head, piece);
      ClientParsing.PhaseTests(parser.requestState, h.phase);
      if RequestBody.RS.Is(parser.requestState, RequestBody.RS.READ_COMPLETE) {
        Answer(parser.statusCode);
      } else if RequestBody.RS.Is(parser.requestState, RequestBody.RS.READ_HEADERS_COMPLETE) {
        BeginUpload(h);
      }
    }

    /** The reads of a whole upload. */
    method HandleReads(pieces: seq<octets>)
      requires request == null && Represents(Reading(H.START)) && AllReadable(Reading(H.START), pieces, maxBodySize)
      modifies this, parser, parser.buffer
      ensures Represents(ReceiveAll(Reading(H.START), pieces, maxBodySize))
      ensures request == null || (fresh(request) && fresh(request.context))
    {
      hide Receive, Readable;
      ghost var u := Reading(H.START);
      for i := 0 to |pieces|
        invariant Sound(u) && Represents(u) && AllReadable(u, pieces[i..], maxBodySize)
        invariant ReceiveAll(u, pieces[i..], maxBodySize) == ReceiveAll(Reading(H.START), pieces, maxBodySize)
        invariant request == null || (fresh(request) && fresh(request.context))
      {
        assert pieces[i..][0] == pieces[i] && pieces[i..][1..] == pieces[i + 1..];
        HandleRead(pieces[i], u);
        u := Receive(u, pieces[i], maxBodySize);
      }
    }

    /** A chunked upload: the request has been given exactly the body, and answers 201 when it can move its
        file; the file is the body
        if and only if no read ended inside the data of a chunk. */
    method HandleChunkedUpload(pieces: seq<octets>, ghost r: HeadGrammar.Request, ghost chunks: seq<Chunk>, ghost tail: octets)
      requires request == null && Represents(Reading(H.START)) && AllReadable(Reading(H.START), pieces, maxBodySize)
      requires r.WellFormed() && Announces(r, maxBodySize, Chunked)
      requires AllAccepted(chunks) && |Payload(chunks)| <= maxBodySize <= INT32_MAX
      requires Concat(pieces) == r.Print() + (Encode(chunks) + tail) && !H.TripsLimit("", pieces)
      modifies this, parser, parser.buffer
      ensures request != null && request.sink == Payload(chunks) && request.context.statusCode == (if request.moved then 201 else 500)
      ensures request.file == Cells(Payload(chunks)) <==> ReadsOutsideData(chunks, pieces, |r.Print()|)
    {
      hide ReceiveAll, Encode, Payload, AllAccepted, AllReadable, TransferOf, HeadGrammar.Request.WellFormed, HeadGrammar.Request.Print, ReadsOutsideData, Cells;
      HandleReads(pieces);
      ChunkedUpload(r, chunks, tail, pieces, maxBodySize);
    }

    /** An upload of declared length: 400 unless some read ends where the body ends; its file is what it was given if and only if no read ended within the body. */
    method HandleDeclaredUpload(pieces: seq<octets>, ghost r: HeadGrammar.Request, ghost body: octets, ghost tail: octets)
      requires request == null && Represents(Reading(H.START)) && AllReadable(Reading(H.START), pieces, maxBodySize)
      requires r.WellFormed() && body != "" && Announces(r, maxBodySize, Declared(|body|))
      requires Concat(pieces) == r.Print() + (body + tail) && !H.TripsLimit("", pieces)
      modifies this, parser, parser.buffer
      ensures request != null
      ensures request.context.statusCode == if !EndsARead(pieces, |r.Print()| + |body|) then 400 else if request.moved then 201 else 500
      ensures request.context.statusCode != 400 ==> request.sink == body
      ensures request.file == Cells(request.sink) <==> !EndsWithin(pieces, |r.Print()|, |body|)
    {
      hide ReceiveAll, AllReadable, TransferOf, HeadGrammar.Request.WellFormed, HeadGrammar.Request.Print, EndsARead, EndsWithin, Cells;
      HandleReads(pieces);
      DeclaredUploadExactly(r, body, tail, pieces, maxBodySize);
    }
  }
}
