/** Printing a request head and parsing it again, in any fragmentation. */
module HeadGrammar {
  import opened Octets
  import opened HeadParsing

  /** The first CRLF after the text is the one that ends its line. */
  predicate OneLine(line: octets) {
    Find(line + CRLF, CRLF) == |line|
  }

  lemma LineEnds(line: octets, rest: octets)
    requires OneLine(line)
    ensures Find(line + CRLF + rest, CRLF) == |line|
  {
    FindExtends(line + CRLF, CRLF, rest);
  }

  /** Text without CR is on one line. */
  lemma PlainIsOneLine(line: octets)
    requires '\r' !in line
    ensures OneLine(line)
  {
    FindLineEnd(line, "");
    assert line + CRLF + "" == line + CRLF;
  }

  datatype Query = NoQuery | Query(text: octets) {
    function Print(): octets {
      if this.NoQuery? then "" else "?" + text
    }

    function Text(): octets {
      if this.NoQuery? then "" else text
    }
  }

  datatype Field = Field(name: octets, value: octets) {
    function Line(): octets {
      name + ": " + value
    }

    predicate WellFormed() {
      OneLine(Line()) && Find(name + ": ", ": ") == |name|
    }
  }

  datatype Request = Request(verb: nat, target: octets, query: Query, fields: seq<Field>) {
    function Line(): octets
      requires verb < INVALID_METHOD
    {
      METHODS[verb] + " " + (target + query.Print() + " " + HTTP_PROTOCOL_VERSION)
    }

    /** The head as section 3 of RFC 9112 writes it, for a request line within the limit. */
    function Print(): octets
      requires verb < INVALID_METHOD
    {
      Line() + CRLF + PrintFields(fields)
    }

    predicate WellFormed() {
      && verb < INVALID_METHOD
      && target != "" && target[0] == '/'
      && ' ' !in target && '?' !in target && ' ' !in query.Text()
      && OneLine(Line()) && |Line()| <= REQUEST_LINE_LIMIT
      && (forall i :: 0 <= i < |fields| ==> fields[i].WellFormed())
      && HEADER_HOST in Fields(fields, map[])
    }
  }

  /** The field lines and the empty line. */
  function PrintFields(fields: seq<Field>): octets {
    if fields == [] then CRLF else fields[0].Line() + CRLF + PrintFields(fields[1..])
  }

  /** Header fields as a map: the last field of a name counts. */
  function Fields(fields: seq<Field>, m: map<octets, octets>): map<octets, octets> {
    if fields == [] then m else Fields(fields[1..], m[fields[0].name := fields[0].value])
  }

  lemma FindChar(s: octets, c: char, rest: octets)
    requires c !in s
    ensures Find(s + [c] + rest, [c]) == |s|
  {
    var t := s + [c] + rest;
    assert t[|s|..|s| + 1] == [c];
    assert OccursAt(t, [c], |s|);
    var r := Find(t, [c]);
    assert t[r..r + 1][0] == c;
  }

  lemma FindNoChar(s: octets, c: char)
    requires c !in s
    ensures Find(s, [c]) == NPOS
  {
    forall i: nat | i < |s| ensures !OccursAt(s, [c], i) {
      assert s[i..i + 1][0] == s[i];
    }
  }

  lemma SplitPrintedQuery(h: Head, r: Request)
    requires r.WellFormed() && h.target == r.target + r.query.Print() && h.query == ""
    ensures SplitQuery(h) == h.(target := r.target, query := r.query.Text())
  {
    var t := h.target;
    if r.query.NoQuery? {
      assert t == r.target;
      FindNoChar(t, '?');
    } else {
      assert t == r.target + "?" + r.query.text;
      FindChar(r.target, '?', r.query.text);
      assert t[..|r.target|] == r.target && t[|r.target| + 1..] == r.query.text;
    }
  }

  lemma NoSpaceInTarget(r: Request)
    requires r.WellFormed()
    ensures ' ' !in r.target + r.query.Print()
  {
    forall c <- r.query.Print() ensures c != ' ' {
      if c in r.query.Text() {}
    }
  }

  lemma ReadPrintedTarget(h: Head, r: Request)
    requires r.WellFormed() && h.query == ""
    ensures ReadTarget(h, r.target + r.query.Print() + " " + HTTP_PROTOCOL_VERSION)
            == h.(target := r.target, query := r.query.Text(), version := HTTP_PROTOCOL_VERSION, phase := AwaitHeaders)
  {
    var t := r.target + r.query.Print();
    var rest := t + " " + HTTP_PROTOCOL_VERSION;
    NoSpaceInTarget(r);
    FindChar(t, ' ', HTTP_PROTOCOL_VERSION);
    assert rest[..|t|] == t && rest[|t| + 1..] == HTTP_PROTOCOL_VERSION;
    assert t != "" && t[0] == '/';
    hide Find, SplitQuery;
    SplitPrintedQuery(h.(target := t), r);
  }

  lemma MethodIndexOf(verb: nat)
    requires verb < INVALID_METHOD
    ensures MethodIndex(METHODS[verb]) == verb && METHODS[verb] != "" && ' ' !in METHODS[verb]
  {}

  lemma ReadPrintedLine(h: Head, r: Request)
    requires r.WellFormed() && h.query == ""
    ensures ReadLine(h, r.Line()) == h.(verb := r.verb, target := r.target, query := r.query.Text(),
                                         version := HTTP_PROTOCOL_VERSION, phase := AwaitHeaders)
  {
    MethodIndexOf(r.verb);
    var m := METHODS[r.verb];
    var rest := r.target + r.query.Print() + " " + HTTP_PROTOCOL_VERSION;
    var line := r.Line();
    FindChar(m, ' ', rest);
    assert line == m + " " + rest;
    assert line[..|m|] == m && line[|m| + 1..] == rest;
    hide Find, MethodIndex, Request.WellFormed, ReadTarget;
    ReadPrintedTarget(h.(verb := r.verb), r);
  }

  lemma ReadPrintedField(h: Head, f: Field, rest: octets)
    requires h.phase.AwaitHeaders? && f.WellFormed() && h.buffer == f.Line() + CRLF + rest
    ensures Headers(h) == Headers(h.(buffer := rest, headers := h.headers[f.name := f.value]))
  {
    var line := f.Line();
    LineEnds(line, rest);
    assert h.buffer[..|line|] == line && h.buffer[|line| + 2..] == rest;
    FindExtends(f.name + ": ", ": ", f.value);
    assert line[..|f.name|] == f.name && line[|f.name| + 2..] == f.value;
  }

  lemma {:induction false} ReadPrintedFields(h: Head, fields: seq<Field>, body: octets)
    requires h.phase.AwaitHeaders? && h.buffer == PrintFields(fields) + body
    requires forall i :: 0 <= i < |fields| ==> fields[i].WellFormed()
    requires HEADER_HOST in Fields(fields, h.headers)
    ensures Headers(h) == h.(buffer := body, headers := Fields(fields, h.headers), phase := Complete)
    decreases fields
  {
    hide Find, Field.WellFormed;
    if fields == [] {
      FindLineEnd("", body);
      assert "" + CRLF + body == h.buffer;
      assert h.buffer[2..] == body;
    } else {
      var f, rest := fields[0], PrintFields(fields[1..]) + body;
      Assoc(f.Line() + CRLF, PrintFields(fields[1..]), body);
      hide Headers;
      ReadPrintedField(h, f, rest);
      ReadPrintedFields(h.(buffer := rest, headers := h.headers[f.name := f.value]), fields[1..], body);
    }
  }

  /** What a head says once it has been parsed, `body` being what follows it. */
  function Parsed(r: Request, body: octets): Head {
    Head(body, Complete, r.verb, r.target, r.query.Text(), HTTP_PROTOCOL_VERSION, Fields(r.fields, map[]))
  }

  lemma ParsePrinted(r: Request, body: octets)
    requires r.WellFormed()
    ensures Parse(START.Append(r.Print() + body)) == Parsed(r, body)
  {
    var line := r.Line();
    var rest := PrintFields(r.fields) + body;
    Assoc(line + CRLF, PrintFields(r.fields), body);
    var h := START.(buffer := line + CRLF + rest);
    assert START.Append(r.Print() + body) == h by { assert "" + (r.Print() + body) == line + CRLF + rest; }
    LineEnds(line, rest);
    TakeDropLine(line, rest);
    ReadPrintedLine(START.(buffer := rest), r);
    var h1 := START.(buffer := rest, verb := r.verb, target := r.target, query := r.query.Text(),
                     version := HTTP_PROTOCOL_VERSION, phase := AwaitHeaders);
    assert |line| <= REQUEST_LINE_LIMIT;
    assert HEADER_HOST in Fields(r.fields, map[]) && forall i :: 0 <= i < |r.fields| ==> r.fields[i].WellFormed();
    hide Find, ReadLine, Headers, Request.WellFormed, Fields;
    assert RequestLine(h) == h1;
    ReadPrintedFields(h1, r.fields, body);
  }

  lemma TakeDropLine(line: octets, rest: octets)
    ensures var s := line + CRLF + rest; s[..|line|] == line && s[|line| + 2..] == rest
  {}

  /** Round trip: a printed head is parsed to what was printed, and the octets of the body are left
      unread, however the stream was cut into reads that do not trip the line limit. */
  lemma RoundTrip(r: Request, body: octets, pieces: seq<octets>)
    requires r.WellFormed() && Concat(pieces) == r.Print() + body
    requires !TripsLimit("", pieces)
    ensures FeedAll(START, pieces) == Parsed(r, body)
  {
    assert pieces != [];
    assert Waiting(START);
    assert Feed(START, Concat(pieces)) == Parsed(r, body) by {
      hide Parse;
      ParsePrinted(r, body);
    }
    hide Feed, FeedAll, Concat, TripsLimit;
    Fragmentation(START, pieces);
  }

  /** A request line shorter than the limit cannot trip it. */
  lemma ShortLinesNeverTrip(r: Request, body: octets, pieces: seq<octets>)
    requires r.WellFormed() && Concat(pieces) == r.Print() + body && |r.Line()| < REQUEST_LINE_LIMIT
    ensures !TripsLimit("", pieces)
  {
    Assoc(r.Line() + CRLF, PrintFields(r.fields), body);
    LineEnds(r.Line(), PrintFields(r.fields) + body);
    assert "" + Concat(pieces) == Concat(pieces);
  }

  // ---- Nothing else is accepted

  lemma FoundFirst(s: octets, c: char, pos: nat)
    requires Find(s, [c]) == pos
    ensures pos < |s| && c !in s[..pos] && s == s[..pos] + [c] + s[pos + 1..]
  {
    forall i: nat | i < pos ensures s[i] != c {
      assert !OccursAt(s, [c], i);
      assert s[i..i + 1] == [s[i]];
    }
    assert s[pos..pos + 1] == [c];
  }

  lemma NotFound(s: octets, c: char)
    requires Find(s, [c]) == NPOS
    ensures c !in s
  {
    forall i: nat | i < |s| ensures s[i] != c {
      assert !OccursAt(s, [c], i);
      assert s[i..i + 1] == [s[i]];
    }
  }

  /** A target with its query. */
  lemma QueryRead(target: octets) returns (path: octets, query: Query)
    requires target != "" && target[0] == '/' && ' ' !in target
    ensures target == path + query.Print() && '?' !in path && ' ' !in path && ' ' !in query.Text()
    ensures path != "" && path[0] == '/'
  {
    var q := Find(target, "?");
    if q == NPOS {
      NotFound(target, '?');
      path, query := target, NoQuery;
    } else {
      FoundFirst(target, '?', q);
      path, query := target[..q], Query(target[q + 1..]);
      assert forall c :: c in query.text ==> c in target;
      assert q > 0;
    }
  }

  /** The request that a line is, but for its fields. */
  lemma LineRead(h: Head, line: octets) returns (r: Request)
    requires ReadLine(h, line).phase.AwaitHeaders?
    ensures r.verb < INVALID_METHOD && r.Line() == line && r.fields == []
    ensures r.target != "" && r.target[0] == '/' && ' ' !in r.target && '?' !in r.target && ' ' !in r.query.Text()
  {
    hide SplitQuery;
    var pos := Find(line, " ");
    FoundFirst(line, ' ', pos);
    var rest := line[pos + 1..];
    var end := Find(rest, " ");
    FoundFirst(rest, ' ', end);
    hide Find;
    var path, query := QueryRead(rest[..end]);
    var verb := MethodIndex(line[..pos]);
    assert rest[end + 1..] == HTTP_PROTOCOL_VERSION;
    r := Request(verb, path, query, []);
    assert line == METHODS[verb] + " " + (rest[..end] + " " + HTTP_PROTOCOL_VERSION);
  }

  lemma FieldRead(line: octets, colon: nat)
    requires Find(line, ": ") == colon
    ensures var f := Field(line[..colon], line[colon + 2..]);
            colon + 2 <= |line| && f.Line() == line && Find(f.name + ": ", ": ") == |f.name|
  {
    var f := Field(line[..colon], line[colon + 2..]);
    assert line == line[..colon] + line[colon..colon + 2] + line[colon + 2..];
    FindExtends(f.name + ": ", ": ", f.value);
    assert OccursAt(f.name + ": ", ": ", colon);
  }

  lemma FieldIsWellFormed(f: Field)
    requires OneLine(f.Line()) && Find(f.name + ": ", ": ") == |f.name|
    ensures f.WellFormed()
  {}

  lemma LineTaken(buffer: octets, pos: nat)
    requires Find(buffer, CRLF) == pos
    ensures pos + 2 <= |buffer| && buffer == buffer[..pos] + CRLF + buffer[pos + 2..] && OneLine(buffer[..pos])
  {
    assert buffer == buffer[..pos] + buffer[pos..pos + 2] + buffer[pos + 2..];
    FindExtends(buffer[..pos] + CRLF, CRLF, buffer[pos + 2..]);
    assert OccursAt(buffer[..pos] + CRLF, CRLF, pos);
  }

  /** The first line of a head that is completed: the empty one, or a field. */
  lemma FieldTaken(h: Head) returns (f: Field, rest: octets, last: bool)
    requires h.phase.AwaitHeaders? && Headers(h).phase.Complete?
    ensures last ==> h.buffer == CRLF + Headers(h).buffer && HEADER_HOST in h.headers
    ensures !last ==>
              && f.WellFormed() && h.buffer == f.Line() + CRLF + rest
              && Headers(h) == Headers(h.(buffer := rest, headers := h.headers[f.name := f.value]))
  {
    var pos := Find(h.buffer, CRLF);
    LineTaken(h.buffer, pos);
    var line := h.buffer[..pos];
    rest, last := h.buffer[pos + 2..], line == "";
    var colon := Find(line, ": ");
    if last {
      f := Field("", "");
    } else {
      assert colon != NPOS;
      FieldRead(line, colon);
      f := Field(line[..colon], line[colon + 2..]);
      FieldIsWellFormed(f);
      hide Find, Field.WellFormed;
      assert HeaderLine(h, line, rest).phase.AwaitHeaders?;
    }
  }

  lemma {:induction false} FieldsRead(h: Head) returns (fields: seq<Field>)
    requires h.phase.AwaitHeaders? && Headers(h).phase.Complete?
    ensures forall i :: 0 <= i < |fields| ==> fields[i].WellFormed()
    ensures HEADER_HOST in Fields(fields, h.headers)
    ensures h.buffer == PrintFields(fields) + Headers(h).buffer
    decreases |h.buffer|
  {
    hide Field.WellFormed, Headers;
    var f, rest, last := FieldTaken(h);
    if last {
      fields := [];
    } else {
      var more := FieldsRead(h.(buffer := rest, headers := h.headers[f.name := f.value]));
      fields := [f] + more;
      assert fields[1..] == more;
      Assoc(f.Line() + CRLF, PrintFields(more), Headers(h).buffer);
    }
  }

  /** A head that was accepted is the print of a request, with the rest of the stream behind it. */
  lemma HeadRead(stream: octets) returns (r: Request)
    requires Parse(START.Append(stream)).phase.Complete?
    ensures r.WellFormed() && stream == r.Print() + Parse(START.Append(stream)).buffer
  {
    var h := START.Append(stream);
    assert "" + stream == stream;
    var pos := Find(stream, CRLF);
    LineTaken(stream, pos);
    var line, rest := stream[..pos], stream[pos + 2..];
    hide Find, ReadLine, Headers;
    var h1 := RequestLine(h);
    var r0 := LineRead(h.(buffer := rest), line);
    var fields := FieldsRead(h1);
    FreshHeaders(h.(buffer := rest), line);
    r := r0.(fields := fields);
    assert r.Line() == line;
    Assoc(line + CRLF, PrintFields(fields), Headers(h1).buffer);
  }

  lemma FreshHeaders(h: Head, line: octets)
    ensures ReadLine(h, line).headers == h.headers
  {
    hide Find;
  }

  /** The parser accepts exactly the printed requests, and says of them what was printed. */
  lemma AcceptsExactly(stream: octets, h: Head)
    ensures Parse(START.Append(stream)) == h && h.phase.Complete? <==>
            exists r: Request, body :: r.WellFormed() && stream == r.Print() + body && h == Parsed(r, body)
  {
    hide Parse, Request.Print, OneLine, Field.WellFormed;
    if Parse(START.Append(stream)) == h && h.phase.Complete? {
      var r := HeadRead(stream);
      ParsePrinted(r, h.buffer);
      assert r.WellFormed() && stream == r.Print() + h.buffer && h == Parsed(r, h.buffer);
    }
    if r: Request, body :| r.WellFormed() && stream == r.Print() + body && h == Parsed(r, body) {
      ParsePrinted(r, body);
    }
  }

  /** The line names a method that is none. */
  ghost predicate UnknownMethod(line: octets) {
    exists m, rest :: m != "" && ' ' !in m && m !in METHODS && line == m + " " + rest
  }

  ghost predicate VersionIs(line: octets, m: octets, target: octets, version: octets) {
    && m in METHODS && line == m + " " + (target + " " + version)
    && target != "" && target[0] == '/' && ' ' !in target
    && version != "" && version != HTTP_PROTOCOL_VERSION
  }

  /** The line has a method, a target, and another version of the protocol. */
  ghost predicate WrongVersion(line: octets) {
    exists m, target, version :: VersionIs(line, m, target, version)
  }

  lemma UnknownMethodExactly(line: octets)
    ensures UnknownMethod(line) <==> Find(line, " ") > 0 && line[..Find(line, " ")] !in METHODS
  {
    var pos := Find(line, " ");
    if pos > 0 && line[..pos] !in METHODS {
      FoundFirst(line, ' ', pos);
      assert line == line[..pos] + " " + line[pos + 1..];
    }
    if UnknownMethod(line) {
      var m, rest :| m != "" && ' ' !in m && m !in METHODS && line == m + " " + rest;
      FindChar(m, ' ', rest);
      assert line[..|m|] == m;
    }
  }

  lemma UnknownMethodRefused(h: Head, line: octets)
    ensures ReadLine(h, line).phase == Failed(405) <==> UnknownMethod(line)
  {
    UnknownMethodExactly(line);
    hide ReadTarget, Find, UnknownMethod, MethodIndex;
    var pos := Find(line, " ");
    if pos > 0 {
      KnownMethods(line[..pos]);
      TargetNever405(h.(verb := MethodIndex(line[..pos])), line[pos + 1..]);
    }
  }

  lemma KnownMethods(name: octets)
    ensures MethodIndex(name) == INVALID_METHOD <==> name !in METHODS
  {}

  lemma TargetNever405(h: Head, rest: octets)
    ensures ReadTarget(h, rest).phase.Failed? ==> ReadTarget(h, rest).phase.status in {400, 505}
  {
    hide Find, SplitQuery;
  }

  /** What stands behind the method of a line that is refused for its version. */
  lemma VersionRead(h: Head, rest: octets) returns (target: octets, version: octets)
    requires ReadTarget(h, rest).phase == Failed(505)
    ensures rest == target + " " + version && target != "" && target[0] == '/' && ' ' !in target
    ensures version != "" && version != HTTP_PROTOCOL_VERSION
  {
    var end := Find(rest, " ");
    FoundFirst(rest, ' ', end);
    hide Find, SplitQuery;
    target, version := rest[..end], rest[end + 1..];
  }

  lemma MethodRead(h: Head, line: octets) returns (m: octets, rest: octets)
    requires ReadLine(h, line).phase == Failed(505)
    ensures m in METHODS && line == m + " " + rest && ReadTarget(h.(verb := MethodIndex(m)), rest).phase == Failed(505)
  {
    var pos := Find(line, " ");
    FoundFirst(line, ' ', pos);
    m, rest := line[..pos], line[pos + 1..];
    KnownMethods(m);
    hide Find, MethodIndex, ReadTarget;
  }

  lemma WrongVersionRefused(h: Head, line: octets)
    ensures ReadLine(h, line).phase == Failed(505) <==> WrongVersion(line)
  {
    hide ReadLine, ReadTarget, MethodIndex;
    if ReadLine(h, line).phase == Failed(505) {
      var m, rest := MethodRead(h, line);
      var target, version := VersionRead(h.(verb := MethodIndex(m)), rest);
      assert VersionIs(line, m, target, version);
    }
    if WrongVersion(line) {
      var m, target, version :| VersionIs(line, m, target, version);
      RefusedVersion(h, m, target, version);
    }
  }

  /** Why a request line is refused: a method that is none, or another version of the protocol; everything
      else is a bad request. */
  lemma RefusedExactly(h: Head, line: octets)
    ensures var phase := ReadLine(h, line).phase;
            && (phase == Failed(405) <==> UnknownMethod(line))
            && (phase == Failed(505) <==> WrongVersion(line))
            && (phase.Failed? && !UnknownMethod(line) && !WrongVersion(line) ==> phase.status == 400)
  {
    UnknownMethodRefused(h, line);
    WrongVersionRefused(h, line);
    hide Find, ReadTarget, MethodIndex;
    var pos := Find(line, " ");
    if pos != NPOS && pos != 0 { TargetNever405(h.(verb := MethodIndex(line[..pos])), line[pos + 1..]); }
  }

  lemma RefusedVersion(h: Head, m: octets, target: octets, version: octets)
    requires m in METHODS && target != "" && target[0] == '/' && ' ' !in target
    requires version != "" && version != HTTP_PROTOCOL_VERSION
    ensures ReadLine(h, m + " " + (target + " " + version)).phase == Failed(505)
  {
    var verb :| 0 <= verb < |METHODS| && METHODS[verb] == m;
    MethodIndexOf(verb);
    var rest := target + " " + version;
    FindChar(m, ' ', rest);
    FindChar(target, ' ', version);
    var line := m + " " + rest;
    assert line[..|m|] == m && line[|m| + 1..] == rest;
    assert rest[..|target|] == target && rest[|target| + 1..] == version;
    hide Find, SplitQuery, MethodIndex;
  }

  // ---- Lines that are too long, and header lines that are refused

  /** A line beyond the limit is a bad request, complete or not; a shorter one that is not complete is waited for. */
  lemma TooLongExactly(h: Head)
    requires h.phase.AwaitLine?
    ensures var end := Find(h.buffer, CRLF);
            var length := if end == NPOS then |h.buffer| else end;
            && (length > 4096 ==> RequestLine(h).phase == Failed(400))
            && (length <= 4096 && end == NPOS ==> RequestLine(h) == h)
            && (length <= 4096 && end != NPOS ==> !RequestLine(h).phase.AwaitLine?)
  {
    hide Find, ReadLine;
  }

  /** Field lines, without the empty one. */
  function FieldLines(fields: seq<Field>): octets {
    if fields == [] then "" else fields[0].Line() + CRLF + FieldLines(fields[1..])
  }

  /** A line of its own that is no field. */
  predicate NoField(line: octets) {
    line != "" && OneLine(line) && Find(line, ": ") == NPOS
  }

  /** Fields, and then a line that is none, or the empty line without a Host before it. */
  ghost predicate BadAfter(buffer: octets, headers: map<octets, octets>, fields: seq<Field>, line: octets, rest: octets) {
    && (forall i :: 0 <= i < |fields| ==> fields[i].WellFormed())
    && buffer == FieldLines(fields) + (line + CRLF + rest)
    && (NoField(line) || (line == "" && HEADER_HOST !in Fields(fields, headers)))
  }

  ghost predicate BadFields(buffer: octets, headers: map<octets, octets>) {
    exists fields, line, rest :: BadAfter(buffer, headers, fields, line, rest)
  }

  lemma BadLineRefused(h: Head, line: octets, rest: octets)
    requires h.phase.AwaitHeaders? && h.buffer == line + CRLF + rest
    requires NoField(line) || (line == "" && HEADER_HOST !in h.headers)
    ensures Headers(h).phase == Failed(400)
  {
    if line == "" {
      FindLineEnd("", rest);
    } else {
      LineEnds(line, rest);
    }
    assert h.buffer[..|line|] == line && h.buffer[|line| + 2..] == rest;
  }

  lemma {:induction false} BadAfterRefused(h: Head, fields: seq<Field>, line: octets, rest: octets)
    requires h.phase.AwaitHeaders? && BadAfter(h.buffer, h.headers, fields, line, rest)
    ensures Headers(h).phase == Failed(400)
    decreases fields
  {
    hide Headers, Field.WellFormed, NoField;
    if fields == [] {
      assert h.buffer == line + CRLF + rest;
      BadLineRefused(h, line, rest);
    } else {
      var f, after := fields[0], FieldLines(fields[1..]) + (line + CRLF + rest);
      Assoc(f.Line() + CRLF, FieldLines(fields[1..]), line + CRLF + rest);
      ReadPrintedField(h, f, after);
      BadAfterRefused(h.(buffer := after, headers := h.headers[f.name := f.value]), fields[1..], line, rest);
    }
  }

  /** The first line of a head that is refused: one that is no field, or a field. */
  lemma RefusedFirst(h: Head) returns (f: Field, line: octets, rest: octets, here: bool)
    requires h.phase.AwaitHeaders? && Headers(h).phase.Failed?
    ensures h.buffer == line + CRLF + rest
    ensures here ==> Headers(h).phase == Failed(400) && (NoField(line) || (line == "" && HEADER_HOST !in h.headers))
    ensures !here ==>
              && f.WellFormed() && line == f.Line()
              && Headers(h) == Headers(h.(buffer := rest, headers := h.headers[f.name := f.value]))
  {
    var pos := Find(h.buffer, CRLF);
    LineTaken(h.buffer, pos);
    line, rest := h.buffer[..pos], h.buffer[pos + 2..];
    var colon := Find(line, ": ");
    here := line == "" || colon == NPOS;
    if here {
      f := Field("", "");
      hide Find, OneLine;
    } else {
      FieldRead(line, colon);
      f := Field(line[..colon], line[colon + 2..]);
      FieldIsWellFormed(f);
      hide Find, Field.WellFormed;
    }
  }

  lemma {:induction false} RefusedAreBad(h: Head)
    requires h.phase.AwaitHeaders? && Headers(h).phase.Failed?
    ensures Headers(h).phase == Failed(400) && BadFields(h.buffer, h.headers)
    decreases |h.buffer|
  {
    hide Headers, Field.WellFormed, NoField;
    var f, line, rest, here := RefusedFirst(h);
    if here {
      assert FieldLines([]) + (line + CRLF + rest) == h.buffer;
      assert BadAfter(h.buffer, h.headers, [], line, rest);
    } else {
      var next := h.(buffer := rest, headers := h.headers[f.name := f.value]);
      RefusedAreBad(next);
      var fields, bad, tail :| BadAfter(rest, next.headers, fields, bad, tail);
      var all := [f] + fields;
      assert all[1..] == fields;
      Assoc(f.Line() + CRLF, FieldLines(fields), bad + CRLF + tail);
      assert BadAfter(h.buffer, h.headers, all, bad, tail);
    }
  }

  /** The header lines are refused, always with 400, if and only if one is no field, or they end without a Host. */
  lemma HeadersRefusedExactly(h: Head)
    requires h.phase.AwaitHeaders?
    ensures Headers(h).phase.Failed? <==> BadFields(h.buffer, h.headers)
    ensures Headers(h).phase.Failed? ==> Headers(h).phase.status == 400
  {
    hide Headers, BadAfter;
    if Headers(h).phase.Failed? { RefusedAreBad(h); }
    if BadFields(h.buffer, h.headers) {
      var fields, line, rest :| BadAfter(h.buffer, h.headers, fields, line, rest);
      BadAfterRefused(h, fields, line, rest);
    }
  }
}
