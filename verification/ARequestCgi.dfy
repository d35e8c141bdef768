/** The CGI side of a request and the send queue of its client (srcs/Request/ARequest-cgi.cpp,
    srcs/Client/Client.cpp:216-241), proved against module CgiRelay. */
module CgiHandling {
  import opened Octets
  import opened Numbers
  import opened BinaryBuffers
  import RS = RequestState
  import opened Responses
  import opened CgiRelay
  import opened RequestBody
  import opened Wrappers

  /** What `recv` answers. */
  datatype Input = Data(bytes: octets) | Closed | Error

  class CgiRequest {
    const readBuffer: BinaryBuffer
    const responseBuffer: BinaryBuffer
    var requestState: RS.Flags
    var statusCode: nat
    var reasonPhrase: octets
    var fields: seq<Field>
    ghost var received: octets
    ghost var sent: octets

    /** The fields are what the relay value `r` says. */
    ghost predicate Represents(r: Relay)
      reads this, readBuffer, responseBuffer
    {
      && readBuffer != responseBuffer
      && readBuffer.data == r.readBuffer && responseBuffer.data == r.response
      && received == r.received && sent == r.sent && fields == r.fields
      && (RS.Is(requestState, RS.CGI_HEADERS_COMPLETE) <==> r.headersComplete)
      && (RS.Is(requestState, RS.CGI_IN_COMPLETE) <==> r.inComplete)
    }

    constructor (fields: seq<Field>)
      ensures fresh(readBuffer) && fresh(responseBuffer) && Represents(Start(fields))
    {
      readBuffer := new BinaryBuffer();
      responseBuffer := new BinaryBuffer();
      requestState := RS.NONE;
      statusCode := 0;
      reasonPhrase := "";
      this.fields := fields;
      received, sent := "", "";
    }

    method ClearResponse(status: nat, reason: octets)
      modifies this`statusCode, this`reasonPhrase, this`fields
      ensures statusCode == status && reasonPhrase == reason && fields == []
    {
      statusCode, reasonPhrase, fields := status, reason, [];
    }

    function Serialised(): octets
      reads this
    {
      Response(statusCode, reasonPhrase, fields).Serialise()
    }

    /** The empty line has been read: status line and fields make up the head. */
    method FinishHeaders()
      modifies this`statusCode, this`reasonPhrase, this`fields
      ensures Response(statusCode, reasonPhrase, fields) == HeadOf(old(fields))
    {
      var i := Lookup(fields, HEADER_STATUS);
      if i == NPOS {
        statusCode, reasonPhrase := 200, OK;
      } else {
        var (code, reason) := CgiStatus(fields[i].value);
        statusCode, reasonPhrase := code, reason;
        fields := fields[..i] + fields[i + 1..];
      }
    }

    method ParseCGIHeaders(ghost r: Relay)
      requires Represents(r) && !r.headersComplete && !r.inComplete
      modifies this`requestState, this`statusCode, this`reasonPhrase, this`fields, readBuffer, responseBuffer
      ensures Represents(CgiRelay.ParseHeaders(r))
    {
      hide Find, Put, HeadOf, CgiStatus, Response.Serialise, RS.Is, RS.Set;
      ghost var fs, rest := fields, readBuffer.data;
      var pos := Find(readBuffer.data, CRLF);
      while pos != NPOS
        invariant pos == Find(readBuffer.data, CRLF)
        invariant Represents(r.(fields := fs, readBuffer := rest))
        invariant ScanHead(fs, rest) == ScanHead(r.fields, r.readBuffer)
        decreases |readBuffer.data|
      {
        var line := readBuffer.Substr(0, pos);
        readBuffer.Erase(0, pos + 2);
        assert line == rest[..pos] && readBuffer.data == rest[pos + 2..];
        if line == "" {
          FinishHeaders();
          FlagsSet(requestState, RS.CGI_HEADERS_COMPLETE);
          requestState := RS.Set(requestState, RS.CGI_HEADERS_COMPLETE);
          responseBuffer.data := Serialised();
          return;
        }
        var colon := Find(line, ": ");
        if colon == NPOS {
          FlagsSet(requestState, RS.CGI_HEADERS_COMPLETE);
          requestState := RS.Set(requestState, RS.CGI_HEADERS_COMPLETE);
          FlagsSet(requestState, RS.CGI_IN_COMPLETE);
          requestState := RS.Set(requestState, RS.CGI_IN_COMPLETE);
          ClearResponse(500, "Internal Server Error");
          responseBuffer.data := Serialised();
          return;
        }
        fields := Put(fields, line[..colon], line[colon + 2..]);
        fs, rest := fields, readBuffer.data;
        pos := Find(readBuffer.data, CRLF);
      }
    }

    method ReadCGI(input: Input, ghost r: Relay) returns (err: Progress)
      requires Represents(r) && (input.Data? ==> input.bytes != "")
      modifies this, readBuffer, responseBuffer
      ensures err == if input.Error? && !r.inComplete then REQ_ERROR else REQ_CONTINUE
      ensures match input
              case Data(bytes) => Represents(OnReceive(r, bytes))
              case Closed => Represents(OnEndOfFile(r))
              case Error => Represents(if r.inComplete then r else r.(inComplete := true))
    {
      hide CgiRelay.ParseHeaders, Response.Serialise, RS.Is, RS.Set;
      if RS.Is(requestState, RS.CGI_IN_COMPLETE) {
        return REQ_CONTINUE;
      }
      match input
      case Closed =>
        FlagsSet(requestState, RS.WORK_COMPLETE);
        requestState := RS.Set(requestState, RS.WORK_COMPLETE);
        if !RS.Is(requestState, RS.CGI_HEADERS_COMPLETE) {
          ClearResponse(500, "Internal Server Error");
          responseBuffer.data := Serialised();
        }
        err := REQ_CONTINUE;
      case Error =>
        FlagsSet(requestState, RS.WORK_COMPLETE);
        requestState := RS.Set(requestState, RS.WORK_COMPLETE);
        err := REQ_ERROR;
      case Data(bytes) =>
        received := received + bytes;
        readBuffer.Append(bytes);
        ghost var g := r.(received := received, readBuffer := readBuffer.data);
        if !RS.Is(requestState, RS.CGI_HEADERS_COMPLETE) {
          ParseCGIHeaders(g);
          g := CgiRelay.ParseHeaders(g);
        }
        if RS.Is(requestState, RS.CGI_HEADERS_COMPLETE) && |readBuffer.data| > 0 {
          responseBuffer.Append(readBuffer.data);
          readBuffer.Clear();
        }
        assert g.response + "" == g.response;
        err := REQ_CONTINUE;
    }

    /** `send` takes up to `taken` octets of what it is offered, or fails. */
    method SendResponse(taken: Option<nat>, ghost r: Relay) returns (err: Progress)
      requires Represents(r)
      modifies this`sent, responseBuffer
      ensures err == REQ_ERROR <==> taken.None? && r.response != ""
      ensures err == REQ_ERROR ==> Represents(r)
      ensures err != REQ_ERROR ==>
                var after := OnSend(r, if taken.Some? then taken.value else 0);
                && Represents(after)
                && err == if after.response == "" && RS.Is(requestState, RS.WORK_COMPLETE) then REQ_DONE else REQ_CONTINUE
    {
      hide RS.Is;
      var bytes := if RS.REQ_BUFFER_SIZE > |responseBuffer.data| then |responseBuffer.data| else RS.REQ_BUFFER_SIZE;
      if bytes > 0 {
        if taken.None? {
          return REQ_ERROR;
        }
        bytes := if taken.value <= bytes then taken.value else bytes;
        sent := sent + responseBuffer.data[..bytes];
        responseBuffer.Erase(0, bytes);
      } else {
        assert sent + responseBuffer.data[..0] == sent;
      }
      err := if |responseBuffer.data| == 0 && RS.Is(requestState, RS.WORK_COMPLETE) then REQ_DONE else REQ_CONTINUE;
    }
  }

  /** Setting flags leaves the CGI flags alone that are not among them. */
  lemma FlagsSet(x: RS.Flags, mask: RS.Flags)
    requires mask == RS.CGI_HEADERS_COMPLETE || mask == RS.CGI_IN_COMPLETE || mask == RS.WORK_COMPLETE
    ensures RS.Is(RS.Set(x, mask), RS.CGI_HEADERS_COMPLETE) <==> RS.Is(x, RS.CGI_HEADERS_COMPLETE) || mask == RS.CGI_HEADERS_COMPLETE
    ensures RS.Is(RS.Set(x, mask), RS.CGI_IN_COMPLETE) <==> RS.Is(x, RS.CGI_IN_COMPLETE) || mask != RS.CGI_HEADERS_COMPLETE
  {}
}
