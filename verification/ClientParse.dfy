/** The request-head parser of a client (srcs/Client/Client-parse.cpp), proved against HeadParsing. */
module ClientParsing {
  import opened Octets
  import opened BinaryBuffers
  import RS = RequestState
  import opened HeadParsing
  import opened RequestBody

  /** The read bits stand for a phase. */
  ghost predicate InPhase(x: RS.Flags, phase: Phase) {
    match phase
    case AwaitLine => x & RS.READ_COMPLETE == 0
    case AwaitHeaders => x & RS.READ_COMPLETE == RS.READ_REQUEST_LINE_COMPLETE
    case Complete => x & RS.READ_COMPLETE == RS.CLIENT_READ_COMPLETE
    case Failed(_) => x & RS.READ_COMPLETE == RS.READ_COMPLETE
  }

  lemma PhaseTests(x: RS.Flags, phase: Phase)
    requires InPhase(x, phase)
    ensures RS.Is(x, RS.READ_REQUEST_LINE_COMPLETE) <==> !phase.AwaitLine?
    ensures RS.Is(x, RS.READ_HEADERS_COMPLETE) <==> phase.Complete? || phase.Failed?
    ensures RS.Is(x, RS.READ_COMPLETE) <==> phase.Failed?
  {}

  lemma PhaseSteps(x: RS.Flags)
    ensures InPhase(x, AwaitLine) ==> InPhase(RS.Set(x, RS.READ_REQUEST_LINE_COMPLETE), AwaitHeaders)
    ensures InPhase(x, AwaitHeaders) ==> InPhase(RS.Set(x, RS.READ_HEADERS_COMPLETE), Complete)
    ensures forall s :: InPhase(RS.Set(x, RS.READ_COMPLETE), Failed(s))
  {}

  lemma SameHeaderLine(h: Head, line: octets, rest: octets)
    ensures HeaderLine(h.(buffer := rest), line, rest) == HeaderLine(h, line, rest)
  {}

  class Client {
    const buffer: BinaryBuffer
    var requestState: RS.Flags
    var statusCode: int
    var verb: int
    var target: octets
    var queryLine: octets
    var protocolVersion: octets
    var headers: map<octets, octets>

    /** The fields are what the parser value `h` says. */
    ghost predicate Represents(h: Head)
      reads this, buffer
    {
      && buffer.data == h.buffer
      && InPhase(requestState, h.phase)
      && statusCode == (if h.phase.Failed? then h.phase.status else 0)
      && verb == h.verb && target == h.target && queryLine == h.query
      && protocolVersion == h.version && headers == h.headers
    }

    constructor ()
      ensures fresh(buffer) && Represents(START)
    {
      buffer := new BinaryBuffer();
      requestState := RS.NONE;
      statusCode := 0;
      verb := UNDEFINED_METHOD;
      target, queryLine, protocolVersion := "", "", "";
      headers := map[];
    }

    method Refuse(status: int, ghost h: Head) returns (r: Progress)
      requires !h.phase.Failed? && Represents(h)
      modifies this`requestState, this`statusCode
      ensures r == REQ_DONE && Represents(h.Fail(status))
    {
      PhaseSteps(requestState);
      statusCode := status;
      requestState := RS.Set(requestState, RS.READ_COMPLETE);
      r := REQ_DONE;
    }

    method ParseQuery(ghost h: Head)
      requires Represents(h)
      modifies this`target, this`queryLine
      ensures Represents(SplitQuery(h))
    {
      hide Find, InPhase;
      var q := Find(target, "?");
      if q != NPOS {
        queryLine := target[q + 1..];
        target := target[..q];
      }
    }

    method ParseVersion(version: octets, ghost h: Head) returns (r: Progress)
      requires h.phase.AwaitLine? && Represents(h)
      modifies this
      ensures r == REQ_DONE && Represents(ReadVersion(h, version))
    {
      hide Find, InPhase;
      protocolVersion := version;
      ghost var g := h.(version := version);
      if protocolVersion == "" {
        r := Refuse(400, g);
      } else if protocolVersion != HTTP_PROTOCOL_VERSION {
        r := Refuse(505, g);
      } else {
        PhaseSteps(requestState);
        requestState := RS.Set(requestState, RS.READ_REQUEST_LINE_COMPLETE);
        r := REQ_DONE;
      }
    }

    method ParseTarget(rest: octets, ghost h: Head) returns (r: Progress)
      requires h.phase.AwaitLine? && Represents(h)
      modifies this
      ensures r == REQ_DONE && Represents(ReadTarget(h, rest))
    {
      hide Find, InPhase, ReadVersion;
      var pos := Find(rest, " ");
      if pos == NPOS {
        r := Refuse(400, h);
        return;
      }
      target := rest[..pos];
      ghost var g := h.(target := target);
      if target == "" || target[0] != '/' {
        r := Refuse(400, g);
        return;
      }
      ParseQuery(g);
      r := ParseVersion(rest[pos + 1..], SplitQuery(g));
    }

    method ParseLine(line: octets, ghost h: Head) returns (r: Progress)
      requires h.phase.AwaitLine? && Represents(h)
      modifies this
      ensures r == REQ_DONE && Represents(ReadLine(h, line))
    {
      hide Find, ReadTarget, MethodIndex, InPhase;
      var pos := Find(line, " ");
      if pos == NPOS {
        r := Refuse(400, h);
        return;
      }
      var name := line[..pos];
      if name == "" {
        r := Refuse(400, h);
        return;
      }
      verb := MethodIndex(name);
      ghost var g := h.(verb := verb);
      if verb == INVALID_METHOD {
        r := Refuse(405, g);
        return;
      }
      r := ParseTarget(line[pos + 1..], g);
    }

    method ParseRequestLine(ghost h: Head) returns (r: Progress)
      requires h.phase.AwaitLine? && Represents(h)
      modifies this, buffer
      ensures Represents(RequestLine(h))
      ensures r == if RequestLine(h).phase.AwaitLine? then REQ_CONTINUE else REQ_DONE
    {
      hide Find, ReadLine, InPhase;
      var pos := Find(buffer.data, CRLF);
      if (pos == NPOS && |buffer.data| > REQUEST_LINE_LIMIT) || (pos != NPOS && pos > REQUEST_LINE_LIMIT) {
        r := Refuse(400, h);
        return;
      }
      if pos == NPOS {
        return REQ_CONTINUE;
      }
      var requestLine := buffer.Substr(0, pos);
      buffer.Erase(0, pos + 2);
      ghost var g := h.(buffer := buffer.data);
      assert requestLine == h.buffer[..pos] && g.buffer == h.buffer[pos + 2..];
      r := ParseLine(requestLine, g);
    }

    /** One header line has been taken off the buffer. */
    method ParseHeaderLine(line: octets, ghost h: Head) returns (r: Progress)
      requires h.phase.AwaitHeaders? && Represents(h)
      modifies this
      ensures Represents(HeaderLine(h, line, h.buffer))
      ensures r == if HeaderLine(h, line, h.buffer).phase.AwaitHeaders? then REQ_CONTINUE else REQ_DONE
    {
      hide Find, InPhase;
      if line == "" {
        if HEADER_HOST !in headers {
          r := Refuse(400, h);
        } else {
          PhaseSteps(requestState);
          requestState := RS.Set(requestState, RS.READ_HEADERS_COMPLETE);
          r := REQ_DONE;
        }
        return;
      }
      var colon := Find(line, ": ");
      if colon == NPOS {
        r := Refuse(400, h);
        return;
      }
      headers := headers[line[..colon] := line[colon + 2..]];
      r := REQ_CONTINUE;
    }

    method ParseHeaders(ghost h: Head) returns (r: Progress)
      requires h.phase.AwaitHeaders? && Represents(h)
      modifies this, buffer
      ensures Represents(Headers(h))
      ensures r == if Headers(h).phase.AwaitHeaders? then REQ_CONTINUE else REQ_DONE
    {
      hide Find, InPhase;
      ghost var g := h;
      var pos := Find(buffer.data, CRLF);
      while pos != NPOS
        invariant pos == Find(buffer.data, CRLF)
        invariant g.phase.AwaitHeaders? && Represents(g) && Headers(g) == Headers(h)
        decreases |buffer.data|
      {
        var line := buffer.Substr(0, pos);
        buffer.Erase(0, pos + 2);
        assert line == g.buffer[..pos] && buffer.data == g.buffer[pos + 2..];
        hide HeaderLine;
        SameHeaderLine(g, line, buffer.data);
        g := g.(buffer := buffer.data);
        r := ParseHeaderLine(line, g);
        g := HeaderLine(g, line, g.buffer);
        if r != REQ_CONTINUE {
          return;
        }
        pos := Find(buffer.data, CRLF);
      }
      r := REQ_CONTINUE;
    }

    /** A read of the socket and the parsing part of `_parseRequest`
        (srcs/Client/Client.cpp:246-254, srcs/Client/Client-parse.cpp:6-20). */
    method HandleRead(piece: octets, ghost h: Head)
      requires Represents(h)
      modifies this, buffer
      ensures Represents(Feed(h, piece))
    {
      hide Find, RequestLine, Headers, InPhase;
      PhaseTests(requestState, h.phase);
      ghost var g := h;
      if !RS.Is(requestState, RS.READ_COMPLETE) {
        buffer.Append(piece);
        g := h.Append(piece);
      }
      if !RS.Is(requestState, RS.READ_REQUEST_LINE_COMPLETE) {
        var r := ParseRequestLine(g);
        g := RequestLine(g);
        if r != REQ_DONE {
          return;
        }
        PhaseTests(requestState, g.phase);
      }
      if !RS.Is(requestState, RS.READ_HEADERS_COMPLETE) {
        var r := ParseHeaders(g);
      }
    }

    /** The reads of a whole run. */
    method HandleReads(pieces: seq<octets>)
      requires Represents(START)
      modifies this, buffer
      ensures Represents(FeedAll(START, pieces))
    {
      hide Feed;
      ghost var h := START;
      for i := 0 to |pieces|
        invariant Represents(h) && FeedAll(h, pieces[i..]) == FeedAll(START, pieces)
      {
        assert pieces[i..][0] == pieces[i] && pieces[i..][1..] == pieces[i + 1..];
        HandleRead(pieces[i], h);
        h := Feed(h, pieces[i]);
      }
    }
  }
}
