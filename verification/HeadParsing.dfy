/** The request head (sections 3 and 5 of RFC 9112) as srcs/Client/Client-parse.cpp parses it: the value
    of the parser between two reads, and what one call makes of the buffer. */
module HeadParsing {
  import opened Octets

  const REQUEST_LINE_LIMIT := 4096
  const HTTP_PROTOCOL_VERSION: octets := "HTTP/1.1"
  const HEADER_HOST: octets := "Host"
  const METHODS: seq<octets> := ["GET", "POST", "DELETE", "PUT", "HEAD"]
  // srcs/Method.cpp: the index of an unknown method, and of none
  const INVALID_METHOD := 5
  const UNDEFINED_METHOD := -1

  /** The read bits of the request state: 0, 1, 3, and 7 with the status that caused it. */
  datatype Phase = AwaitLine | AwaitHeaders | Complete | Failed(status: int)

  // `verb` is the index of the request method.
  datatype Head = Head(
    buffer: octets, phase: Phase, verb: int, target: octets, query: octets, version: octets,
    headers: map<octets, octets>)
  {
    function Append(more: octets): Head {
      this.(buffer := buffer + more)
    }

    function Fail(status: int): Head {
      this.(phase := Failed(status))
    }
  }

  const START := Head("", AwaitLine, UNDEFINED_METHOD, "", "", "", map[])

  function MethodIndex(name: octets): (i: int)
    ensures 0 <= i <= INVALID_METHOD
    ensures i < INVALID_METHOD ==> METHODS[i] == name
    ensures i == INVALID_METHOD ==> name !in METHODS
  {
    if name == "GET" then 0 else if name == "POST" then 1 else if name == "DELETE" then 2
    else if name == "PUT" then 3 else if name == "HEAD" then 4 else INVALID_METHOD
  }

  /** The query string is cut off the target. */
  function SplitQuery(h: Head): Head {
    var q := Find(h.target, "?");
    if q == NPOS then h else h.(target := h.target[..q], query := h.target[q + 1..])
  }

  function ReadVersion(h: Head, version: octets): (r: Head)
    ensures r.buffer == h.buffer && (r.phase.AwaitHeaders? || r.phase.Failed?)
  {
    var h1 := h.(version := version);
    if version == "" then h1.Fail(400)
    else if version != HTTP_PROTOCOL_VERSION then h1.Fail(505)
    else h1.(phase := AwaitHeaders)
  }

  /** What follows the method: target, query and version. */
  function ReadTarget(h: Head, rest: octets): (r: Head)
    ensures r.buffer == h.buffer && (r.phase.AwaitHeaders? || r.phase.Failed?)
  {
    var pos := Find(rest, " ");
    if pos == NPOS then h.Fail(400)
    else
      var h1 := h.(target := rest[..pos]);
      if h1.target == "" || h1.target[0] != '/' then h1.Fail(400)
      else ReadVersion(SplitQuery(h1), rest[pos + 1..])
  }

  function ReadLine(h: Head, line: octets): (r: Head)
    ensures r.buffer == h.buffer && (r.phase.AwaitHeaders? || r.phase.Failed?)
  {
    var pos := Find(line, " ");
    if pos == NPOS || pos == 0 then h.Fail(400)
    else
      var h1 := h.(verb := MethodIndex(line[..pos]));
      if h1.verb == INVALID_METHOD then h1.Fail(405) else ReadTarget(h1, line[pos + 1..])
  }

  /** `_parseRequestLine`. */
  function RequestLine(h: Head): Head {
    var pos := Find(h.buffer, CRLF);
    if (pos == NPOS && |h.buffer| > REQUEST_LINE_LIMIT) || (pos != NPOS && pos > REQUEST_LINE_LIMIT) then h.Fail(400)
    else if pos == NPOS then h
    else ReadLine(h.(buffer := h.buffer[pos + 2..]), h.buffer[..pos])
  }

  /** One pass of `_parseHeaders`: the buffer was `line`, CRLF and `rest`. */
  function HeaderLine(h: Head, line: octets, rest: octets): (r: Head)
    ensures r.buffer == rest
    ensures h.phase.AwaitHeaders? ==> !r.phase.AwaitLine?
  {
    var h' := h.(buffer := rest);
    if line == "" then if HEADER_HOST in h.headers then h'.(phase := Complete) else h'.Fail(400)
    else
      var colon := Find(line, ": ");
      if colon == NPOS then h'.Fail(400)
      else h'.(headers := h.headers[line[..colon] := line[colon + 2..]])
  }

  /** `_parseHeaders`: all complete lines of the buffer, up to the empty one. */
  function Headers(h: Head): (r: Head)
    requires h.phase.AwaitHeaders?
    ensures !r.phase.AwaitLine?
    decreases |h.buffer|
  {
    var pos := Find(h.buffer, CRLF);
    if pos == NPOS then h
    else
      var h' := HeaderLine(h, h.buffer[..pos], h.buffer[pos + 2..]);
      if h'.phase.AwaitHeaders? then Headers(h') else h'
  }

  /** The parsing part of `_parseRequest`. */
  function Parse(h: Head): Head {
    if h.phase.AwaitLine? then
      var h1 := RequestLine(h);
      if h1.phase.AwaitHeaders? then Headers(h1) else h1
    else if h.phase.AwaitHeaders? then Headers(h)
    else h
  }

  /** One read of the socket and the parsing after it; a failed head ends the reads. */
  function Feed(h: Head, piece: octets): Head {
    if h.phase.Failed? then h else Parse(h.Append(piece))
  }

  function FeedAll(h: Head, pieces: seq<octets>): Head
    decreases pieces
  {
    if pieces == [] then h else FeedAll(Feed(h, pieces[0]), pieces[1..])
  }

  /** Same status and fields and, unless the head was refused, the same unread octets. */
  predicate Same(x: Head, y: Head) {
    x == y || (x.phase.Failed? && x.(buffer := y.buffer) == y)
  }

  // ---- Growing the buffer of a single call

  lemma {:induction false} HeadersExtends(h: Head, b: octets)
    requires h.phase.AwaitHeaders?
    ensures var x, y := Headers(h), Headers(h.Append(b));
            match x.phase
            case AwaitHeaders => Headers(x.Append(b)) == y
            case Complete => y == x.Append(b)
            case _ => Same(x, y)
    decreases |h.buffer|
  {
    hide Find;
    FindExtends(h.buffer, CRLF, b);
    var pos := Find(h.buffer, CRLF);
    if pos != NPOS {
      TakeDropAppend(h.buffer, b, pos);
      TakeDropAppend(h.buffer, b, pos + 2);
      var next := HeaderLine(h, h.buffer[..pos], h.buffer[pos + 2..]);
      HeaderLineExtends(h, h.buffer[..pos], h.buffer[pos + 2..], b);
      hide HeaderLine;
      if next.phase.AwaitHeaders? { HeadersExtends(next, b); }
    }
  }

  lemma HeaderLineExtends(h: Head, line: octets, rest: octets, b: octets)
    ensures HeaderLine(h.Append(b), line, rest + b) == HeaderLine(h, line, rest).Append(b)
  {
    hide Find;
  }

  /** The buffer holds the limit and one octet more, a CR, and `b` starts with the LF to it. */
  predicate CutAtLimit(buffer: octets, b: octets) {
    |buffer| == REQUEST_LINE_LIMIT + 1 && Find(buffer + b, CRLF) == REQUEST_LINE_LIMIT
  }

  lemma RequestLineExtends(h: Head, b: octets)
    requires h.phase.AwaitLine? && !CutAtLimit(h.buffer, b)
    ensures var x, y := RequestLine(h), RequestLine(h.Append(b));
            match x.phase
            case AwaitLine => x == h
            case AwaitHeaders => y == x.Append(b)
            case _ => Same(x, y)
  {
    hide Find, ReadLine;
    FindExtends(h.buffer, CRLF, b);
    var pos := Find(h.buffer, CRLF);
    if pos != NPOS {
      TakeDropAppend(h.buffer, b, pos);
      TakeDropAppend(h.buffer, b, pos + 2);
      ReadLineBuffer(h.buffer[..pos], h.(buffer := h.buffer[pos + 2..]), h.Append(b).(buffer := h.buffer[pos + 2..] + b));
    }
  }

  /** What the line says does not depend on what is buffered behind it. */
  lemma ReadLineBuffer(line: octets, h: Head, g: Head)
    requires h.(buffer := g.buffer) == g
    ensures ReadLine(h, line).(buffer := g.buffer) == ReadLine(g, line)
  {
    hide Find, MethodIndex;
    var pos := Find(line, " ");
    if pos != NPOS && pos != 0 {
      ReadTargetBuffer(line[pos + 1..], h.(verb := MethodIndex(line[..pos])), g.(verb := MethodIndex(line[..pos])));
      hide ReadTarget;
    }
  }

  lemma SplitQueryBuffer(h: Head, b: octets)
    ensures SplitQuery(h).(buffer := b) == SplitQuery(h.(buffer := b))
  {
    hide Find;
  }

  lemma ReadVersionBuffer(h: Head, version: octets, b: octets)
    ensures ReadVersion(h, version).(buffer := b) == ReadVersion(h.(buffer := b), version)
  {}

  lemma ReadTargetBuffer(rest: octets, h: Head, g: Head)
    requires h.(buffer := g.buffer) == g
    ensures ReadTarget(h, rest).(buffer := g.buffer) == ReadTarget(g, rest)
  {
    var pos := Find(rest, " ");
    hide Find, SplitQuery, ReadVersion;
    if pos != NPOS {
      var h1 := h.(target := rest[..pos]);
      SplitQueryBuffer(h1, g.buffer);
      ReadVersionBuffer(SplitQuery(h1), rest[pos + 1..], g.buffer);
    }
  }

  lemma ParseExtends(h: Head, b: octets)
    requires h.phase.AwaitLine? ==> !CutAtLimit(h.buffer, b)
    requires !h.phase.Failed?
    ensures var x, y := Parse(h), Parse(h.Append(b));
            if x.phase.Failed? then Same(x, y) else Parse(x.Append(b)) == y
  {
    if h.phase.AwaitLine? {
      RequestLineExtends(h, b);
      var x := RequestLine(h);
      if x.phase.AwaitHeaders? { HeadersExtends(x, b); }
    } else if h.phase.AwaitHeaders? {
      HeadersExtends(h, b);
    }
  }

  // ---- Fragmentation

  /** Some read ends between the CR and the LF of a request line that is exactly as long as the limit. */
  ghost predicate TripsLimit(buffer: octets, pieces: seq<octets>) {
    && Find(buffer + Concat(pieces), CRLF) == REQUEST_LINE_LIMIT
    && exists k :: 1 <= k <= |pieces| && |buffer| + |Concat(pieces[..k])| == REQUEST_LINE_LIMIT + 1
  }

  /** The line is awaited and the buffer does not decide it. */
  predicate Waiting(h: Head) {
    h.phase.AwaitLine? ==> Find(h.buffer, CRLF) == NPOS && |h.buffer| <= REQUEST_LINE_LIMIT
  }

  lemma TripsStep(buffer: octets, pieces: seq<octets>)
    requires pieces != []
    ensures TripsLimit(buffer, pieces) <==>
            CutAtLimit(buffer + pieces[0], Concat(pieces[1..])) || TripsLimit(buffer + pieces[0], pieces[1..])
  {
    hide Find;
    Assoc(buffer, pieces[0], Concat(pieces[1..]));
    assert pieces[..1] == [pieces[0]] && Concat([pieces[0]]) == pieces[0];
    forall k | 2 <= k <= |pieces| ensures Concat(pieces[..k]) == pieces[0] + Concat(pieces[1..][..k - 1]) {
      assert pieces[..k][1..] == pieces[1..][..k - 1];
    }
    if |buffer| + |Concat(pieces[..1])| == REQUEST_LINE_LIMIT + 1 && Find(buffer + Concat(pieces), CRLF) == REQUEST_LINE_LIMIT {
      assert TripsLimit(buffer, pieces);
    }
    if TripsLimit(buffer + pieces[0], pieces[1..]) {
      var k :| 1 <= k <= |pieces[1..]| && |buffer + pieces[0]| + |Concat(pieces[1..][..k])| == REQUEST_LINE_LIMIT + 1;
      assert |buffer| + |Concat(pieces[..k + 1])| == REQUEST_LINE_LIMIT + 1;
    }
  }

  /** How the stream was cut into reads does not matter, unless the cut trips the line limit: then the
      request is refused with nothing parsed. */
  lemma {:induction false} Fragmentation(h: Head, pieces: seq<octets>)
    requires Waiting(h) && !h.phase.Failed? && pieces != []
    ensures var x := FeedAll(h, pieces);
            if h.phase.AwaitLine? && TripsLimit(h.buffer, pieces)
            then x.(buffer := "") == h.Fail(400).(buffer := "")
            else Same(x, Feed(h, Concat(pieces)))
    decreases pieces
  {
    var p, rest := pieces[0], pieces[1..];
    var h1 := Feed(h, p);
    Assoc(h.buffer, p, Concat(rest));
    assert h.Append(p).Append(Concat(rest)) == h.Append(Concat(pieces));
    TripsStep(h.buffer, pieces);
    if h.phase.AwaitLine? && CutAtLimit(h.buffer + p, Concat(rest)) {
      LimitTripped(h, p, Concat(rest));
      FailedStays(h1, rest);
    } else {
      ParseExtends(h.Append(p), Concat(rest));
      if h1.phase.AwaitLine? {
        assert h1 == h.Append(p);
      } else if h.phase.AwaitLine? {
        NoTripAfterLine(h, p, rest);
      }
      if h1.phase.Failed? {
        FailedStays(h1, rest);
      } else if rest == [] {
        assert Concat(pieces) == p;
      } else {
        Fragmentation(h1, rest);
      }
    }
  }

  lemma LimitTripped(h: Head, p: octets, b: octets)
    requires h.phase.AwaitLine? && CutAtLimit(h.buffer + p, b)
    ensures Feed(h, p) == h.Append(p).Fail(400)
  {
    FindExtends(h.buffer + p, CRLF, b);
  }

  lemma NoTripAfterLine(h: Head, p: octets, rest: seq<octets>)
    requires h.phase.AwaitLine? && !CutAtLimit(h.buffer + p, Concat(rest)) && !Feed(h, p).phase.AwaitLine?
    ensures !TripsLimit(h.buffer + p, rest)
  {
    FindExtends(h.buffer + p, CRLF, Concat(rest));
  }

  lemma {:induction false} FailedStays(h: Head, pieces: seq<octets>)
    requires h.phase.Failed?
    ensures FeedAll(h, pieces) == h
    decreases pieces
  {
    if pieces != [] { FailedStays(h, pieces[1..]); }
  }
}
