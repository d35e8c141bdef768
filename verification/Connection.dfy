/** The life of a connection (srcs/Client/Client.cpp, srcs/Client/Client-parse.cpp:3-31): its flag word,
    time stamps and request object, from the first read to the last write. */
module Connection {
  import RS = RequestState
  import opened HeadParsing

  datatype Stamp = Never | At(time: int)

  /** `created`, `timeouts` and `refusedLate` are history: requests constructed, 408 answers given, and
      whether the headers timed out. */
  datatype Conn = Conn(
    flags: RS.Flags, status: int, request: bool, cgi: bool, cgiSilent: bool,
    headerStamp: int, bodyStamp: Stamp, sendStamp: Stamp,
    created: nat, timeouts: nat, refusedLate: bool)
  {
    predicate Is(mask: RS.Flags) {
      RS.Is(flags, mask)
    }

    function Set(mask: RS.Flags): Conn {
      this.(flags := RS.Set(flags, mask))
    }

    function Unset(mask: RS.Flags): Conn {
      this.(flags := RS.Unset(flags, mask))
    }

    predicate Erroneous() {
      400 <= status < 600
    }
  }

  function Accepted(now: int): Conn {
    Conn(RS.NONE, 0, false, false, true, now, Never, Never, 0, 0, false)
  }

  datatype Timeouts = Timeouts(header: int, body: int, send: int)

  // ---- What the environment decides

  /** `processing` of a request: the work flags it sets, the CGI it may have opened and started, and the
      status it may have decided on. */
  datatype Processing = Processing(work: RS.Flags, paired: bool, started: bool, status: int)

  datatype Resolution = Refused(status: int) | Redirected(status: int) | Handled(verb: nat, result: Processing)

  /** What `recv` brings, from the client or from the CGI. */
  datatype Received = Data | Closed | Error

  /** What `send` does: fail, or take some octets or none and leave the queue empty or not. */
  datatype Sending = Unsent | Took(some: bool, drained: bool)

  /** What a read of the CGI output amounts to. */
  datatype CgiReading = Ended(failed: bool) | Malformed | More(headersDone: bool)

  datatype Event =
    | SocketIn(now: int, received: Received, head: Phase, resolution: Resolution, workDone: bool, workStatus: int, errorPage: bool)
    | SocketOut(now: int, workOutDone: bool, sending: Sending)
    | CgiIn(reading: CgiReading, silent: bool, status: int)
    | CgiOut(done: bool, status: int)
    | Tick(now: int, errorPage: bool)

  // ---- Steps

  /** Flags that the constructor of the request class sets. */
  function ConstructorFlags(verb: nat): RS.Flags {
    if verb == 0 then RS.WORK_IN_COMPLETE | RS.CGI_OUT_COMPLETE | RS.CGI_IN_COMPLETE
    else if verb == 1 then RS.WORK_OUT_COMPLETE
    else if verb == 3 then RS.WORK_OUT_COMPLETE | RS.CGI_IN_COMPLETE | RS.CGI_OUT_COMPLETE
    else RS.WORK_COMPLETE
  }

  /** The new read bits and status. */
  function Parsed(c: Conn, head: Phase): Conn {
    match head
    case AwaitLine => c
    case AwaitHeaders => c.Set(RS.READ_REQUEST_LINE_COMPLETE)
    case Complete => c.Set(RS.READ_REQUEST_LINE_COMPLETE).Set(RS.READ_HEADERS_COMPLETE)
    case Failed(status) => c.Set(RS.READ_COMPLETE).(status := status)
  }

  function Constructed(c: Conn, verb: nat): Conn {
    c.Set(ConstructorFlags(verb)).(request := true, created := c.created + 1)
  }

  function Processed(c: Conn, p: Processing): Conn {
    var c1 := c.Set(p.work & RS.WORK_COMPLETE);
    (if p.started then c1.Unset(RS.CGI_IN_COMPLETE) else c1).(cgi := p.paired, status := p.status)
  }

  /** `_resolveARequest`; the flag tells REQ_CONTINUE from REQ_DONE. */
  function Resolved(c: Conn, resolution: Resolution): (Conn, bool) {
    match resolution
    case Refused(status) => (c.(status := status), true)
    case Redirected(status) => (c.(status := status).Set(RS.WORK_COMPLETE), false)
    case Handled(verb, p) =>
      (Processed(Constructed(c, verb), p), p.status != 0)
  }

  /** `_parseRequest`; the flag tells whether it is done. */
  function ParseRequest(c: Conn, head: Phase, resolution: Resolution): (Conn, bool) {
    var c1 := Parsed(c, head);
    if !c1.Is(RS.READ_HEADERS_COMPLETE) then (c1, false)
    else if c1.status == 0 then
      var (c2, goOn) := Resolved(c1, resolution);
      (if goOn then c2.Set(RS.WORK_IN_COMPLETE) else c2, true)
    else (c1.Set(RS.WORK_IN_COMPLETE), true)
  }

  /** `workIn` of an upload. */
  function WorkIn(c: Conn, done: bool, status: int): Conn {
    if done then c.Set(RS.WORK_IN_COMPLETE).Set(RS.CGI_OUT_COMPLETE).(status := status) else c
  }

  /** `_loadErrorPage`: without a configured page the body is ready at once. */
  function LoadErrorPage(c: Conn, configured: bool): Conn {
    if configured then c else c.Set(RS.WORK_COMPLETE)
  }

  function SwitchToWrite(c: Conn, now: int): Conn {
    c.Set(RS.CAN_WRITE).(sendStamp := At(now))
  }

  /** The body of `_handleSocketIn` after parsing. */
  function Worked(c: Conn, e: Event): Conn
    requires e.SocketIn?
  {
    var working := c.request && !c.Is(RS.WORK_IN_COMPLETE);
    var c1 := if working then WorkIn(c.(bodyStamp := At(e.now)), e.workDone, e.workStatus) else c;
    if working && !e.workDone then c1
    else SwitchToWrite(if c1.Erroneous() then LoadErrorPage(c1, e.errorPage) else c1, e.now)
  }

  /** `_handleSocketIn`. */
  function OnSocketIn(c: Conn, e: Event): Conn
    requires e.SocketIn?
  {
    if !c.Is(RS.READ_COMPLETE) && !e.received.Data? then c
    else
      var c1 := if !c.Is(RS.READ_COMPLETE) && c.Is(RS.CLIENT_READ_COMPLETE) then c.(bodyStamp := At(e.now)) else c;
      var (c2, parsed) := if c1.Is(RS.CLIENT_READ_COMPLETE) then (c1, true) else ParseRequest(c1, e.head, e.resolution);
      if parsed then Worked(c2, e) else c2
  }

  function OnSocketOut(c: Conn, e: Event): Conn
    requires e.SocketOut?
  {
    var c1 := if !c.Is(RS.WORK_OUT_COMPLETE) && e.workOutDone && (c.Erroneous() || c.request)
              then c.Set(RS.WORK_OUT_COMPLETE) else c;
    if e.sending.Took? && e.sending.some then c1.(sendStamp := At(e.now)) else c1
  }

  function OnCgiIn(c: Conn, e: Event): Conn
    requires e.CgiIn?
  {
    if c.Is(RS.CGI_IN_COMPLETE) then c
    else
      (match e.reading
       case Ended(_) => c.Set(RS.WORK_COMPLETE)
       case Malformed => c.Set(RS.CGI_HEADERS_COMPLETE).Set(RS.CGI_IN_COMPLETE)
       case More(headersDone) => if headersDone then c.Set(RS.CGI_HEADERS_COMPLETE) else c).(cgiSilent := c.cgiSilent && e.silent, status := e.status)
  }

  function OnCgiOut(c: Conn, e: Event): Conn
    requires e.CgiOut?
  {
    WorkIn(c, e.done, e.status)
  }

  predicate Expired(stamp: Stamp, timeout: int, now: int) {
    timeout != 0 && stamp.At? && now - stamp.time >= timeout
  }

  /** An answer decided by a timeout: everything but the sending is complete. */
  function AnswerTimeout(c: Conn, status: int, e: Event): Conn
    requires e.Tick?
  {
    SwitchToWrite(LoadErrorPage(c.(status := status).Set(RS.WORK_COMPLETE).Unset(RS.WORK_OUT_COMPLETE), e.errorPage), e.now)
  }

  predicate HeaderTimesOut(c: Conn, t: Timeouts, now: int) {
    !c.Is(RS.READ_HEADERS_COMPLETE) && Expired(At(c.headerStamp), t.header, now)
  }

  predicate BodyTimesOut(c: Conn, t: Timeouts, now: int) {
    (!c.Is(RS.WORK_IN_COMPLETE) || !c.Is(RS.CGI_OUT_COMPLETE)) && Expired(c.bodyStamp, t.body, now)
  }

  /** `timeoutCheck`, for a connection that it does not end. */
  function OnTick(c: Conn, e: Event, t: Timeouts): Conn
    requires e.Tick?
  {
    if HeaderTimesOut(c, t, e.now) then
      AnswerTimeout(c.Set(RS.READ_COMPLETE), 408, e).(timeouts := c.timeouts + 1, refusedLate := true)
    else if BodyTimesOut(c, t, e.now) then AnswerTimeout(c, 408, e).(timeouts := c.timeouts + 1)
    else if c.Is(RS.CAN_WRITE) && Expired(c.sendStamp, t.send, e.now) && c.request && c.cgiSilent then
      AnswerTimeout(c, 504, e)
    else c
  }

  function Step(c: Conn, e: Event, t: Timeouts): Conn {
    match e
    case SocketIn(_, _, _, _, _, _, _) => OnSocketIn(c, e)
    case SocketOut(_, _, _) => OnSocketOut(c, e)
    case CgiIn(_, _, _) => OnCgiIn(c, e)
    case CgiOut(_, _) => OnCgiOut(c, e)
    case Tick(_, _) => OnTick(c, e, t)
  }

  function Run(c: Conn, events: seq<Event>, t: Timeouts): Conn
    decreases events
  {
    if events == [] then c else Run(Step(c, events[0], t), events[1..], t)
  }

  // ---- Bits

  /** Bits that are never cleared: the read bits, work in and CGI out. */
  const STICKY: RS.Flags := 0x97

  predicate Grows(x: RS.Flags, y: RS.Flags) {
    x & STICKY & !y == 0
  }

  predicate ReadBits(x: RS.Flags) {
    var low := x & RS.READ_COMPLETE;
    low == 0 || low == 1 || low == 3 || low == 7
  }

  lemma GrowsTransitive(x: RS.Flags, y: RS.Flags, z: RS.Flags)
    requires Grows(x, y) && Grows(y, z)
    ensures Grows(x, z)
  {}

  /** Masks outside the read bits leave these alone. */
  lemma OutsideReadBits(x: RS.Flags, mask: RS.Flags)
    requires mask & RS.READ_COMPLETE == 0
    ensures RS.Set(x, mask) & RS.READ_COMPLETE == x & RS.READ_COMPLETE
    ensures RS.Unset(x, mask) & RS.READ_COMPLETE == x & RS.READ_COMPLETE
  {}

  lemma SetGrows(x: RS.Flags, mask: RS.Flags)
    ensures Grows(x, RS.Set(x, mask))
    ensures mask & STICKY == 0 ==> Grows(x, RS.Unset(x, mask))
  {}

  // ---- The invariant

  predicate Inv(c: Conn) {
    && ReadBits(c.flags)
    && c.created <= 1 && (c.request <==> c.created == 1)
    && (c.request ==> c.flags & RS.READ_COMPLETE == RS.CLIENT_READ_COMPLETE)
    && (c.cgi ==> c.request)
    && c.timeouts <= 1
    && (c.refusedLate ==> c.timeouts == 1 && c.flags & RS.READ_COMPLETE == RS.READ_COMPLETE)
    && (c.timeouts == 1 ==> c.Is(RS.READ_HEADERS_COMPLETE) && c.Is(RS.WORK_IN_COMPLETE) && c.Is(RS.CGI_OUT_COMPLETE))
    && (c.bodyStamp.At? ==> c.Is(RS.READ_HEADERS_COMPLETE))
    && (c.status != 0 ==> c.Is(RS.READ_HEADERS_COMPLETE))
  }

  /** A step that leaves the read bits and the history alone, and clears no sticky bit. */
  predicate Quiet(c: Conn, d: Conn) {
    && d.flags & RS.READ_COMPLETE == c.flags & RS.READ_COMPLETE && Grows(c.flags, d.flags)
    && d.request == c.request && d.cgi == c.cgi && d.created == c.created
    && d.timeouts == c.timeouts && d.refusedLate == c.refusedLate
    && ((d.bodyStamp == c.bodyStamp && d.status == c.status) || c.Is(RS.READ_HEADERS_COMPLETE))
  }

  lemma GrowsKeeps(x: RS.Flags, y: RS.Flags)
    requires Grows(x, y)
    ensures RS.Is(x, RS.WORK_IN_COMPLETE) ==> RS.Is(y, RS.WORK_IN_COMPLETE)
    ensures RS.Is(x, RS.CGI_OUT_COMPLETE) ==> RS.Is(y, RS.CGI_OUT_COMPLETE)
    ensures RS.Is(x, RS.READ_HEADERS_COMPLETE) ==> RS.Is(y, RS.READ_HEADERS_COMPLETE)
  {}

  lemma QuietKeeps(c: Conn, d: Conn)
    requires Inv(c) && Quiet(c, d)
    ensures Inv(d)
  {
    GrowsKeeps(c.flags, d.flags);
    hide RS.Is, Grows;
  }

  lemma QuietTransitive(c: Conn, d: Conn, e: Conn)
    requires Quiet(c, d) && Quiet(d, e)
    ensures Quiet(c, e)
  {
    GrowsTransitive(c.flags, d.flags, e.flags);
    SameReadBits(c.flags, d.flags);
    hide RS.Is, Grows;
  }

  lemma SameReadBits(x: RS.Flags, y: RS.Flags)
    requires x & RS.READ_COMPLETE == y & RS.READ_COMPLETE
    ensures RS.Is(x, RS.READ_HEADERS_COMPLETE) <==> RS.Is(y, RS.READ_HEADERS_COMPLETE)
    ensures RS.Is(x, RS.CLIENT_READ_COMPLETE) <==> RS.Is(y, RS.CLIENT_READ_COMPLETE)
  {}

  lemma SetQuiet(c: Conn, mask: RS.Flags)
    requires mask & RS.READ_COMPLETE == 0
    ensures Quiet(c, c.Set(mask)) && (mask & STICKY == 0 ==> Quiet(c, c.Unset(mask)))
  {
    OutsideReadBits(c.flags, mask);
    SetGrows(c.flags, mask);
  }

  lemma WorkInQuiet(c: Conn, done: bool, status: int)
    requires c.Is(RS.READ_HEADERS_COMPLETE)
    ensures Quiet(c, WorkIn(c, done, status))
  {
    SetQuiet(c, RS.WORK_IN_COMPLETE);
    SetQuiet(c.Set(RS.WORK_IN_COMPLETE), RS.CGI_OUT_COMPLETE);
    QuietTransitive(c, c.Set(RS.WORK_IN_COMPLETE), c.Set(RS.WORK_IN_COMPLETE).Set(RS.CGI_OUT_COMPLETE));
    QuietRefl(c);
    hide RS.Is, RS.Set;
  }

  lemma QuietRefl(c: Conn)
    ensures Quiet(c, c)
  {}

  /** The tail of `_handleSocketIn`. */
  lemma AnswerQuiet(c: Conn, configured: bool, now: int)
    ensures Quiet(c, SwitchToWrite(if c.Erroneous() then LoadErrorPage(c, configured) else c, now))
  {
    var d := if c.Erroneous() then LoadErrorPage(c, configured) else c;
    QuietRefl(c);
    SetQuiet(c, RS.WORK_COMPLETE);
    SetQuiet(d, RS.CAN_WRITE);
    hide RS.Is, RS.Set;
    QuietTransitive(c, d, d.Set(RS.CAN_WRITE));
  }

  // ---- Parsing and resolving

  lemma ParsedBits(x: RS.Flags)
    requires ReadBits(x) && !RS.Is(x, RS.CLIENT_READ_COMPLETE)
    ensures var y := RS.Set(x, RS.READ_REQUEST_LINE_COMPLETE); y & RS.READ_COMPLETE == 1 && Grows(x, y)
    ensures var y := RS.Set(RS.Set(x, RS.READ_REQUEST_LINE_COMPLETE), RS.READ_HEADERS_COMPLETE); y & RS.READ_COMPLETE == 3 && Grows(x, y)
    ensures var y := RS.Set(x, RS.READ_COMPLETE); y & RS.READ_COMPLETE == 7 && Grows(x, y)
  {}

  lemma QuietRetag(c: Conn, d: Conn, cgi: bool, status: int)
    requires Quiet(c, d) && c.Is(RS.READ_HEADERS_COMPLETE)
    ensures Quiet(c.(cgi := cgi), d.(cgi := cgi, status := status))
  {
    hide RS.Is, Grows;
  }

  lemma ConstructedQuiet(c: Conn, verb: nat)
    ensures Quiet(c.(request := true, created := c.created + 1), Constructed(c, verb))
  {
    SetQuiet(c.(request := true, created := c.created + 1), ConstructorFlags(verb));
  }

  lemma ProcessedQuiet(c: Conn, p: Processing)
    requires c.Is(RS.READ_HEADERS_COMPLETE)
    ensures Quiet(c.(cgi := p.paired), Processed(c, p))
  {
    var mask := p.work & RS.WORK_COMPLETE;
    assert mask & RS.READ_COMPLETE == 0;
    var c1 := c.Set(mask);
    SetQuiet(c, mask);
    SetQuiet(c1, RS.CGI_IN_COMPLETE);
    hide RS.Set, RS.Unset, RS.Is, Grows, Quiet;
    var c2 := if p.started then c1.Unset(RS.CGI_IN_COMPLETE) else c1;
    if p.started { QuietTransitive(c, c1, c2); }
    QuietRetag(c, c2, p.paired, p.status);
  }

  lemma HandledQuiet(c: Conn, verb: nat, p: Processing)
    requires c.Is(RS.READ_HEADERS_COMPLETE)
    ensures Quiet(c.(request := true, created := c.created + 1, cgi := p.paired), Resolved(c, Handled(verb, p)).0)
  {
    ConstructedQuiet(c, verb);
    var c0 := c.(request := true, created := c.created + 1);
    var c1 := Constructed(c, verb);
    GrowsKeeps(c0.flags, c1.flags);
    hide RS.Is, Grows, Constructed, Processed;
    ProcessedQuiet(c1, p);
    QuietRetag(c0, c1, p.paired, c1.status);
    hide Quiet;
    QuietTransitive(c0.(cgi := p.paired), c1.(cgi := p.paired), Processed(c1, p));
  }

  lemma ResolvedQuiet(c: Conn, resolution: Resolution)
    requires c.Is(RS.READ_HEADERS_COMPLETE)
    ensures var d := Resolved(c, resolution).0;
            if resolution.Handled? then Quiet(c.(request := true, created := c.created + 1, cgi := d.cgi), d) else Quiet(c, d)
  {
    match resolution
    case Refused(status) => QuietRefl(c);
    case Redirected(status) =>
      SetQuiet(c.(status := status), RS.WORK_COMPLETE);
    case Handled(verb, p) =>
      hide Quiet, Processed, Constructed;
      HandledQuiet(c, verb, p);
  }

  /** The environment answers as the functions called by the server can: a refused head has an error
      status, CGI events come from an open CGI socket. */
  predicate Possible(c: Conn, e: Event) {
    && (e.SocketIn? && e.head.Failed? ==> e.head.status >= 400)
    && (e.CgiIn? || e.CgiOut? ==> c.cgi)
  }

  lemma ParsedInv(c: Conn, head: Phase)
    requires Inv(c) && !c.Is(RS.CLIENT_READ_COMPLETE) && (head.Failed? ==> head.status >= 400)
    ensures var d := Parsed(c, head);
            && Inv(d) && Grows(c.flags, d.flags) && !d.request && d.created == 0 && !d.refusedLate
            && (d.Is(RS.READ_HEADERS_COMPLETE) && d.status == 0 ==> d.flags & RS.READ_COMPLETE == RS.CLIENT_READ_COMPLETE)
  {
    ParsedBits(c.flags);
    NoRequestYet(c);
    SetGrows(c.flags, RS.NONE);
  }

  lemma NoRequestYet(c: Conn)
    requires Inv(c) && !c.Is(RS.CLIENT_READ_COMPLETE)
    ensures !c.request && !c.refusedLate && c.timeouts == 0 && c.bodyStamp.Never? && c.status == 0
            && !c.Is(RS.READ_HEADERS_COMPLETE)
  {}

  lemma QuietHistory(c: Conn, d: Conn)
    requires Quiet(c, d)
    ensures Grows(c.flags, d.flags) && d.refusedLate == c.refusedLate
  {}

  /** What resolving leads to, from a head that has just been completed. */
  lemma ResolvedInv(c: Conn, resolution: Resolution)
    requires Inv(c) && c.flags & RS.READ_COMPLETE == RS.CLIENT_READ_COMPLETE
    requires c.created == 0 && !c.refusedLate && c.Is(RS.READ_HEADERS_COMPLETE)
    ensures var d := Resolved(c, resolution).0;
            Inv(d) && Grows(c.flags, d.flags) && !d.refusedLate && Inv(d.Set(RS.WORK_IN_COMPLETE))
            && Grows(c.flags, d.Set(RS.WORK_IN_COMPLETE).flags)
  {
    var d := Resolved(c, resolution).0;
    var base := if resolution.Handled? then c.(request := true, created := 1, cgi := d.cgi) else c;
    assert Inv(base);
    hide RS.Set, RS.Is, Resolved, Grows, Inv, Quiet;
    ResolvedQuiet(c, resolution);
    SetQuiet(d, RS.WORK_IN_COMPLETE);
    QuietHistory(base, d);
    QuietHistory(d, d.Set(RS.WORK_IN_COMPLETE));
    QuietKeeps(base, d);
    QuietKeeps(d, d.Set(RS.WORK_IN_COMPLETE));
    GrowsTransitive(c.flags, d.flags, d.Set(RS.WORK_IN_COMPLETE).flags);
  }

  lemma ParseRequestInv(c: Conn, head: Phase, resolution: Resolution)
    requires Inv(c) && !c.Is(RS.CLIENT_READ_COMPLETE) && (head.Failed? ==> head.status >= 400)
    ensures var d := ParseRequest(c, head, resolution).0;
            Inv(d) && Grows(c.flags, d.flags) && !d.refusedLate && c.created == 0 && !c.refusedLate
  {
    NoRequestYet(c);
    ParsedInv(c, head);
    var c1 := Parsed(c, head);
    SetQuiet(c1, RS.WORK_IN_COMPLETE);
    hide RS.Set, RS.Is, Resolved, Parsed, Grows, Inv;
    if c1.Is(RS.READ_HEADERS_COMPLETE) && c1.status == 0 {
      ResolvedInv(c1, resolution);
      GrowsTransitive(c.flags, c1.flags, ParseRequest(c, head, resolution).0.flags);
    } else {
      QuietKeeps(c1, c1.Set(RS.WORK_IN_COMPLETE));
      GrowsTransitive(c.flags, c1.flags, c1.Set(RS.WORK_IN_COMPLETE).flags);
    }
  }

  // ---- Every step, every run

  /** What one step, or many, may do to the invariant part of a connection. */
  predicate Advances(c: Conn, d: Conn) {
    && Inv(d) && Grows(c.flags, d.flags)
    && c.created <= d.created && c.timeouts <= d.timeouts
    && (c.refusedLate ==> d.refusedLate && d.created == c.created)
  }

  lemma QuietAdvances(c: Conn, d: Conn)
    requires Inv(c) && Quiet(c, d)
    ensures Advances(c, d)
  {
    QuietKeeps(c, d);
  }

  lemma AdvancesTransitive(c: Conn, d: Conn, e: Conn)
    requires Advances(c, d) && Advances(d, e)
    ensures Advances(c, e)
  {
    hide Inv, Grows;
    GrowsTransitive(c.flags, d.flags, e.flags);
  }

  lemma StampQuiet(c: Conn, stamp: Stamp)
    requires c.Is(RS.READ_HEADERS_COMPLETE)
    ensures Quiet(c, c.(bodyStamp := stamp))
  {}

  lemma WorkedQuiet(c: Conn, e: Event)
    requires e.SocketIn? && Inv(c)
    ensures Quiet(c, Worked(c, e))
  {
    var working := c.request && !c.Is(RS.WORK_IN_COMPLETE);
    var c1 := if working then WorkIn(c.(bodyStamp := At(e.now)), e.workDone, e.workStatus) else c;
    QuietRefl(c);
    if working {
      assert c.Is(RS.READ_HEADERS_COMPLETE);
      StampQuiet(c, At(e.now));
      WorkInQuiet(c.(bodyStamp := At(e.now)), e.workDone, e.workStatus);
      QuietTransitive(c, c.(bodyStamp := At(e.now)), c1);
    }
    hide Quiet, RS.Is, WorkIn, LoadErrorPage, SwitchToWrite;
    AnswerQuiet(c1, e.errorPage, e.now);
    QuietTransitive(c, c1, SwitchToWrite(if c1.Erroneous() then LoadErrorPage(c1, e.errorPage) else c1, e.now));
  }

  lemma SocketInAdvances(c: Conn, e: Event)
    requires e.SocketIn? && Inv(c) && Possible(c, e)
    ensures Advances(c, OnSocketIn(c, e))
  {
    var c1 := if !c.Is(RS.READ_COMPLETE) && c.Is(RS.CLIENT_READ_COMPLETE) then c.(bodyStamp := At(e.now)) else c;
    QuietRefl(c);
    ClientReadHasHeaders(c.flags);
    if c1 != c { StampQuiet(c, At(e.now)); }
    QuietAdvances(c, c1);
    if !c.Is(RS.READ_COMPLETE) && !e.received.Data? {
      QuietAdvances(c, c);
    } else if c1.Is(RS.CLIENT_READ_COMPLETE) {
      WorkedQuiet(c1, e);
      QuietAdvances(c1, Worked(c1, e));
      hide Quiet, Worked, Inv, Grows;
      AdvancesTransitive(c, c1, Worked(c1, e));
    } else {
      ParseRequestInv(c, e.head, e.resolution);
      NoRequestYet(c);
      var (c2, parsed) := ParseRequest(c, e.head, e.resolution);
      hide Quiet, Inv, Grows, ParseRequest;
      if parsed {
        WorkedQuiet(c2, e);
        QuietAdvances(c2, Worked(c2, e));
        hide Worked;
        AdvancesTransitive(c, c2, Worked(c2, e));
      }
    }
  }

  lemma ClientReadHasHeaders(x: RS.Flags)
    ensures RS.Is(x, RS.CLIENT_READ_COMPLETE) ==> RS.Is(x, RS.READ_HEADERS_COMPLETE)
  {}

  lemma CgiHasHeaders(c: Conn)
    requires Inv(c) && c.request
    ensures c.Is(RS.READ_HEADERS_COMPLETE)
  {}

  lemma SendStampQuiet(c: Conn, d: Conn, stamp: Stamp)
    requires Quiet(c, d)
    ensures Quiet(c, d.(sendStamp := stamp))
  {
    hide RS.Is, Grows;
  }

  lemma SocketOutAdvances(c: Conn, e: Event)
    requires e.SocketOut? && Inv(c)
    ensures Advances(c, OnSocketOut(c, e))
  {
    var d := c.Set(RS.WORK_OUT_COMPLETE);
    assert OnSocketOut(c, e) in {c, c.(sendStamp := At(e.now)), d, d.(sendStamp := At(e.now))};
    SetQuiet(c, RS.WORK_OUT_COMPLETE);
    QuietRefl(c);
    hide *;
    SendStampQuiet(c, c, At(e.now));
    SendStampQuiet(c, d, At(e.now));
    QuietAdvances(c, OnSocketOut(c, e));
  }

  lemma CgiReadQuiet(c: Conn)
    ensures Quiet(c, c) && Quiet(c, c.Set(RS.WORK_COMPLETE)) && Quiet(c, c.Set(RS.CGI_HEADERS_COMPLETE))
    ensures Quiet(c, c.Set(RS.CGI_HEADERS_COMPLETE).Set(RS.CGI_IN_COMPLETE))
  {
    QuietRefl(c);
    SetQuiet(c, RS.WORK_COMPLETE);
    SetQuiet(c, RS.CGI_HEADERS_COMPLETE);
    SetQuiet(c.Set(RS.CGI_HEADERS_COMPLETE), RS.CGI_IN_COMPLETE);
    hide RS.Set, Quiet;
    QuietTransitive(c, c.Set(RS.CGI_HEADERS_COMPLETE), c.Set(RS.CGI_HEADERS_COMPLETE).Set(RS.CGI_IN_COMPLETE));
  }

  lemma CgiReadAgain(c: Conn, d: Conn, silent: bool, status: int)
    requires Quiet(c, d) && c.Is(RS.READ_HEADERS_COMPLETE)
    ensures Quiet(c, d.(cgiSilent := silent, status := status))
  {
    hide RS.Is, Grows;
  }

  lemma CgiInAdvances(c: Conn, e: Event)
    requires e.CgiIn? && Inv(c) && c.cgi
    ensures Advances(c, OnCgiIn(c, e))
  {
    CgiHasHeaders(c);
    CgiReadQuiet(c);
    hide RS.Set, RS.Is, Inv, Grows, Quiet;
    var d := match e.reading
      case Ended(_) => c.Set(RS.WORK_COMPLETE)
      case Malformed => c.Set(RS.CGI_HEADERS_COMPLETE).Set(RS.CGI_IN_COMPLETE)
      case More(headersDone) => if headersDone then c.Set(RS.CGI_HEADERS_COMPLETE) else c;
    CgiReadAgain(c, d, c.cgiSilent && e.silent, e.status);
    QuietAdvances(c, OnCgiIn(c, e));
  }

  lemma CgiOutAdvances(c: Conn, e: Event)
    requires e.CgiOut? && Inv(c) && c.cgi
    ensures Advances(c, OnCgiOut(c, e))
  {
    CgiHasHeaders(c);
    WorkInQuiet(c, e.done, e.status);
    hide RS.Set, RS.Is, Inv, Grows;
    QuietAdvances(c, OnCgiOut(c, e));
  }

  lemma TimeoutFlags(x: RS.Flags, configured: bool)
    ensures var y := RS.Unset(RS.Set(x, RS.WORK_COMPLETE), RS.WORK_OUT_COMPLETE);
            var z := RS.Set(if configured then y else RS.Set(y, RS.WORK_COMPLETE), RS.CAN_WRITE);
            && z & RS.READ_COMPLETE == x & RS.READ_COMPLETE && Grows(x, z)
            && RS.Is(z, RS.WORK_IN_COMPLETE) && RS.Is(z, RS.CGI_OUT_COMPLETE)
            && (RS.Is(z, RS.READ_HEADERS_COMPLETE) <==> RS.Is(x, RS.READ_HEADERS_COMPLETE))
  {}

  /** A timeout answer leaves nothing to read in or to write to a CGI. */
  lemma AnswerTimeoutKeeps(c: Conn, status: int, e: Event)
    requires e.Tick? && c.Is(RS.READ_HEADERS_COMPLETE)
    ensures var d := AnswerTimeout(c, status, e);
            Quiet(c, d) && d.Is(RS.WORK_IN_COMPLETE) && d.Is(RS.CGI_OUT_COMPLETE) && d.Is(RS.READ_HEADERS_COMPLETE)
  {
    TimeoutFlags(c.flags, e.errorPage);
    hide RS.Set, RS.Unset, Grows;
  }

  lemma RefusedBits(x: RS.Flags)
    ensures var y := RS.Set(x, RS.READ_COMPLETE);
            y & RS.READ_COMPLETE == RS.READ_COMPLETE && Grows(x, y) && RS.Is(y, RS.READ_HEADERS_COMPLETE)
  {}

  lemma TickAdvances(c: Conn, e: Event, t: Timeouts)
    requires e.Tick? && Inv(c)
    ensures Advances(c, OnTick(c, e, t))
    ensures HeaderTimesOut(c, t, e.now) || BodyTimesOut(c, t, e.now) ==> c.timeouts == 0 && OnTick(c, e, t).timeouts == 1
  {
    if HeaderTimesOut(c, t, e.now) {
      HeaderTickAdvances(c, e, t);
    } else if BodyTimesOut(c, t, e.now) {
      AnswerTimeoutKeeps(c, 408, e);
      hide AnswerTimeout, Grows;
    } else if c.Is(RS.CAN_WRITE) && Expired(c.sendStamp, t.send, e.now) && c.request && c.cgiSilent {
      CgiHasHeaders(c);
      AnswerTimeoutKeeps(c, 504, e);
      hide AnswerTimeout, Grows;
      QuietAdvances(c, AnswerTimeout(c, 504, e));
    } else {
      QuietRefl(c);
      QuietAdvances(c, c);
    }
  }

  lemma HeaderTickAdvances(c: Conn, e: Event, t: Timeouts)
    requires e.Tick? && Inv(c) && HeaderTimesOut(c, t, e.now)
    ensures Advances(c, OnTick(c, e, t)) && c.timeouts == 0
  {
    assert !c.request && c.timeouts == 0 && !c.cgi;
    var c1 := c.Set(RS.READ_COMPLETE);
    RefusedBits(c.flags);
    AnswerTimeoutKeeps(c1, 408, e);
    hide RS.Set, AnswerTimeout, Grows;
    GrowsTransitive(c.flags, c1.flags, AnswerTimeout(c1, 408, e).flags);
  }

  lemma StepAdvances(c: Conn, e: Event, t: Timeouts)
    requires Inv(c) && Possible(c, e)
    ensures Advances(c, Step(c, e, t))
  {
    if e.SocketIn? {
      SocketInAdvances(c, e);
    } else if e.Tick? {
      TickAdvances(c, e, t);
    } else if e.SocketOut? {
      SocketOutAdvances(c, e);
    } else if e.CgiIn? {
      CgiInAdvances(c, e);
    } else {
      CgiOutAdvances(c, e);
    }
  }

  predicate PossibleRun(c: Conn, events: seq<Event>, t: Timeouts)
    decreases events
  {
    events == [] || (Possible(c, events[0]) && PossibleRun(Step(c, events[0], t), events[1..], t))
  }

  /** Over every run: the read bits stay among 0, 1, 3 and 7 and only grow, a request is created at most
      once and never after the headers timed out, and at most one 408 is answered. */
  lemma {:induction false} RunAdvances(c: Conn, events: seq<Event>, t: Timeouts)
    requires Inv(c) && PossibleRun(c, events, t)
    ensures Advances(c, Run(c, events, t))
    decreases events
  {
    if events == [] {
      QuietRefl(c);
      QuietAdvances(c, c);
    } else {
      var c1 := Step(c, events[0], t);
      StepAdvances(c, events[0], t);
      assert Inv(c1);
      hide Step, Inv, Grows, Advances, Possible;
      RunAdvances(c1, events[1..], t);
      AdvancesTransitive(c, c1, Run(c1, events[1..], t));
    }
  }

  lemma AcceptedInv(now: int)
    ensures Inv(Accepted(now))
  {}

  /** The same, for a connection from its acceptance on. */
  lemma LifeOfConnection(now: int, events: seq<Event>, t: Timeouts)
    requires PossibleRun(Accepted(now), events, t)
    ensures var d := Run(Accepted(now), events, t);
            && ReadBits(d.flags)
            && d.created <= 1 && (d.cgi ==> d.created == 1)
            && Count408(Accepted(now), events, t) <= 1
            && (d.refusedLate ==> d.created == 0)
  {
    AcceptedInv(now);
    RunAdvances(Accepted(now), events, t);
    AtMostOne408(Accepted(now), events, t);
    hide Run, Count408;
    var d := Run(Accepted(now), events, t);
    assert d.refusedLate ==> !d.request;
  }

  // ---- Timeouts, told by the bits, stamps and limits alone

  /** The headers are not complete and their time is up. */
  predicate LateHead(c: Conn, t: Timeouts, now: int) {
    c.flags & 0x2 == 0 && t.header != 0 && now - c.headerStamp >= t.header
  }

  /** Body or CGI input is not complete, and nothing of it has come for too long. */
  predicate LateBody(c: Conn, t: Timeouts, now: int) {
    c.flags & 0x90 != 0x90 && t.body != 0 && c.bodyStamp.At? && now - c.bodyStamp.time >= t.body
  }

  /** The answer may be written, its CGI has said nothing, and the time to send is up. */
  predicate SilentCgi(c: Conn, t: Timeouts, now: int) {
    c.flags & 0x100 != 0 && t.send != 0 && c.sendStamp.At? && now - c.sendStamp.time >= t.send && c.request && c.cgiSilent
  }

  /** A tick answers 408 exactly when head or body are late, and 504 exactly when a CGI is silent instead; the
      answer is complete but for its sending, and for the error page if one is configured. No other tick does
      anything. */
  lemma TickAnswers(c: Conn, e: Event, t: Timeouts)
    requires e.Tick?
    ensures var d := OnTick(c, e, t);
            var late := LateHead(c, t, e.now) || LateBody(c, t, e.now);
            if late || SilentCgi(c, t, e.now) then
              && d.status == (if late then 408 else 504) && d.sendStamp == At(e.now)
              && d.flags == TimeoutWord(if LateHead(c, t, e.now) then c.flags | 0x7 else c.flags, e.errorPage)
              && d.request == c.request && d.cgi == c.cgi && d.cgiSilent == c.cgiSilent
              && d.headerStamp == c.headerStamp && d.bodyStamp == c.bodyStamp && d.created == c.created
            else d == c
  {
    hide *;
    LateTests(c, t, e.now);
    TickCases(c, e, t);
    AnsweredWord(c, 504, e);
    AnsweredWord(c, 408, e);
    AnsweredWord(c.Set(RS.READ_COMPLETE), 408, e);
    ReadCompleteWord(c);
  }

  /** All work complete and writing allowed; the body of the answer is still to be read if it is a page. */
  function TimeoutWord(x: RS.Flags, errorPage: bool): RS.Flags {
    if errorPage then (x | 0x1F0) & !0x20 else x | 0x1F0
  }

  lemma AnsweredWord(c: Conn, status: int, e: Event)
    requires e.Tick?
    ensures AnswerTimeout(c, status, e)
            == c.(status := status, sendStamp := At(e.now), flags := TimeoutWord(c.flags, e.errorPage))
  {
    hide RS.Set, RS.Unset, TimeoutWord;
    MaskedWord(c.flags);
  }

  lemma MaskedWord(x: RS.Flags)
    ensures RS.Set(RS.Unset(RS.Set(x, RS.WORK_COMPLETE), RS.WORK_OUT_COMPLETE), RS.CAN_WRITE) == TimeoutWord(x, true)
    ensures RS.Set(RS.Set(RS.Unset(RS.Set(x, RS.WORK_COMPLETE), RS.WORK_OUT_COMPLETE), RS.WORK_COMPLETE), RS.CAN_WRITE)
            == TimeoutWord(x, false)
  {}

  lemma ReadCompleteWord(c: Conn)
    ensures c.Set(RS.READ_COMPLETE) == c.(flags := c.flags | 0x7)
  {}

  lemma LateTests(c: Conn, t: Timeouts, now: int)
    ensures LateHead(c, t, now) <==> HeaderTimesOut(c, t, now)
    ensures LateBody(c, t, now) <==> BodyTimesOut(c, t, now)
    ensures SilentCgi(c, t, now) <==> c.Is(RS.CAN_WRITE) && Expired(c.sendStamp, t.send, now) && c.request && c.cgiSilent
  {
    hide RS.Is;
    BitTests(c.flags);
  }

  lemma TickCases(c: Conn, e: Event, t: Timeouts)
    requires e.Tick?
    ensures var d := OnTick(c, e, t);
            if HeaderTimesOut(c, t, e.now) then
              d == AnswerTimeout(c.Set(RS.READ_COMPLETE), 408, e).(timeouts := c.timeouts + 1, refusedLate := true)
            else if BodyTimesOut(c, t, e.now) then d == AnswerTimeout(c, 408, e).(timeouts := c.timeouts + 1)
            else if c.Is(RS.CAN_WRITE) && Expired(c.sendStamp, t.send, e.now) && c.request && c.cgiSilent then
              d == AnswerTimeout(c, 504, e)
            else d == c
  {
    hide AnswerTimeout;
  }

  lemma BitTests(x: RS.Flags)
    ensures RS.Is(x, RS.READ_HEADERS_COMPLETE) <==> x & 0x2 != 0
    ensures RS.Is(x, RS.WORK_IN_COMPLETE) && RS.Is(x, RS.CGI_OUT_COMPLETE) <==> x & 0x90 == 0x90
    ensures RS.Is(x, RS.CAN_WRITE) <==> x & 0x100 != 0
  {}

  /** The tick answers with status 408. */
  predicate Answers408(c: Conn, e: Event, t: Timeouts) {
    e.Tick? && Step(c, e, t) != c && Step(c, e, t).status == 408
  }

  /** How many ticks of a run answer with status 408. */
  function Count408(c: Conn, events: seq<Event>, t: Timeouts): nat
    decreases events
  {
    if events == [] then 0
    else (if Answers408(c, events[0], t) then 1 else 0) + Count408(Step(c, events[0], t), events[1..], t)
  }

  lemma LateIsTimedOut(c: Conn, e: Event, t: Timeouts)
    requires Inv(c) && Answers408(c, e, t)
    ensures c.timeouts == 0 && Step(c, e, t).timeouts == 1
  {
    TickAnswers(c, e, t);
    TickAdvances(c, e, t);
    BitTests(c.flags);
    hide OnTick, Inv, Advances, RS.Is;
  }

  /** Over every run at most one tick answers 408. */
  lemma {:induction false} AtMostOne408(c: Conn, events: seq<Event>, t: Timeouts)
    requires Inv(c) && PossibleRun(c, events, t)
    ensures Count408(c, events, t) + c.timeouts <= 1
    decreases events
  {
    if events != [] {
      var c1 := Step(c, events[0], t);
      StepAdvances(c, events[0], t);
      if Answers408(c, events[0], t) { LateIsTimedOut(c, events[0], t); }
      assert Inv(c1) && c.timeouts <= c1.timeouts;
      hide Step, Inv, Answers408, Possible, Advances;
      AtMostOne408(c1, events[1..], t);
    } else {
      assert c.timeouts <= 1;
    }
  }

  /** Bits that only grow, among those four values, pass through the phases in order. */
  lemma PhasesInOrder(x: RS.Flags, y: RS.Flags)
    requires ReadBits(x) && ReadBits(y) && Grows(x, y)
    ensures x & RS.READ_COMPLETE <= y & RS.READ_COMPLETE
    ensures x & RS.READ_COMPLETE == RS.READ_COMPLETE ==> y & RS.READ_COMPLETE == RS.READ_COMPLETE
  {}
}
