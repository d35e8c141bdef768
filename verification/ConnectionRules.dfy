/** What the events of a connection do to its flag word, told by the bits themselves
    (incs/RequestContext.hpp:21-81): 0x1 and 0x3 for request line and headers, 0x7 for a head that is read no
    further, 0x10 and 0x20 for the work in and out, 0x40 and 0x80 for the CGI in and out, 0x100 for writing,
    0x400 for CGI headers. */
module ConnectionRules {
  import RS = RequestState
  import opened HeadParsing
  import opened Connection

  /** The event ends the connection: the client has closed or reading from it failed, while it was still read;
      sending to it failed, or everything is sent and all work is complete; or it has taken nothing for too long,
      not for want of CGI output. Events of the CGI socket end nothing. */
  predicate Finishes(c: Conn, e: Event, t: Timeouts) {
    match e
    case SocketIn(_, received, _, _, _, _, _) => c.flags & 0x7 != 0x7 && !received.Data?
    case SocketOut(_, _, sending) => sending.Unsent? || (sending.drained && OnSocketOut(c, e).flags & 0xF0 == 0xF0)
    case Tick(now, _) =>
      && !LateHead(c, t, now) && !LateBody(c, t, now)
      && c.flags & 0x100 != 0 && t.send != 0 && c.sendStamp.At? && now - c.sendStamp.time >= t.send
      && !(c.request && c.cgiSilent)
    case _ => false
  }

  // ---- Parsing and resolving

  /** What a constructor leaves to do: GET writes; POST reads, and may talk to a CGI both ways; PUT reads. */
  lemma ConstructorWord(verb: nat)
    requires verb < INVALID_METHOD
    ensures ConstructorFlags(verb)
            == if METHODS[verb] == "GET" then 0xD0 else if METHODS[verb] == "POST" then 0x20
               else if METHODS[verb] == "PUT" then 0xE0 else 0xF0
  {}

  /** A CGI that was started is still to be read, and a request that was refused needs no body. */
  function ProcessedWord(y: RS.Flags, started: bool, refused: bool): RS.Flags {
    if started then (if refused then (y & !0x40) | 0x10 else y & !0x40) else if refused then y | 0x10 else y
  }

  /** The word of a request that has been constructed and has processed its headers. */
  function HandledWord(x: RS.Flags, made: RS.Flags, work: RS.Flags): RS.Flags {
    x | 0x3 | made | (work & 0xF0)
  }

  /** What a head that was not complete becomes, for every way in which it may go on. */
  lemma ParseRule(c: Conn, head: Phase, resolution: Resolution)
    requires c.flags & 0x2 == 0 && c.status == 0
    ensures var (d, done) := ParseRequest(c, head, resolution);
            match head
            case AwaitLine => d == c && !done
            case AwaitHeaders => d == c.(flags := c.flags | 0x1) && !done
            case Failed(status) => status != 0 ==> d == c.(flags := c.flags | 0x17, status := status) && done
            case Complete =>
              && done
              && match resolution
                 case Refused(status) => d == c.(flags := c.flags | 0x13, status := status)
                 case Redirected(status) => d == c.(flags := c.flags | 0xF3, status := status)
                 case Handled(verb, p) =>
                   d == c.(flags := ProcessedWord(HandledWord(c.flags, ConstructorFlags(verb), p.work), p.started, p.status != 0),
                           status := p.status, cgi := p.paired,
                           request := true, created := c.created + 1)
  {
    hide RS.Is, RS.Set, RS.Unset, HandledWord, ProcessedWord, ConstructorFlags;
    ParseWords(c.flags);
    if head.Complete? && resolution.Handled? {
      HandledRule(c, resolution.verb, resolution.result);
    }
  }

  lemma HandledRule(c: Conn, verb: nat, p: Processing)
    ensures var d := Processed(Constructed(c.(flags := c.flags | 0x3), verb), p);
            c.(flags := ProcessedWord(HandledWord(c.flags, ConstructorFlags(verb), p.work), p.started, p.status != 0),
               status := p.status, cgi := p.paired, request := true, created := c.created + 1)
            == if p.status != 0 then d.Set(RS.WORK_IN_COMPLETE) else d
  {
    hide RS.Is, RS.Set, RS.Unset, HandledWord, ProcessedWord, ConstructorFlags;
    WorkWord(c.flags, ConstructorFlags(verb), p.work);
    ProcessedWordIs(HandledWord(c.flags, ConstructorFlags(verb), p.work), p.started, p.status != 0);
  }

  lemma ParseWords(x: RS.Flags)
    requires x & 0x2 == 0
    ensures !RS.Is(x, RS.READ_HEADERS_COMPLETE)
    ensures RS.Set(x, RS.READ_REQUEST_LINE_COMPLETE) == x | 0x1 && !RS.Is(x | 0x1, RS.READ_HEADERS_COMPLETE)
    ensures RS.Set(x | 0x1, RS.READ_HEADERS_COMPLETE) == x | 0x3 && RS.Is(x | 0x3, RS.READ_HEADERS_COMPLETE)
    ensures RS.Set(x, RS.READ_COMPLETE) == x | 0x7 && RS.Is(x | 0x7, RS.READ_HEADERS_COMPLETE)
    ensures RS.Set(x | 0x3, RS.WORK_IN_COMPLETE) == x | 0x13 && RS.Set(x | 0x7, RS.WORK_IN_COMPLETE) == x | 0x17
    ensures RS.Set(x | 0x3, RS.WORK_COMPLETE) == x | 0xF3
  {}

  lemma ProcessedWordIs(y: RS.Flags, started: bool, refused: bool)
    ensures var z := if started then RS.Unset(y, RS.CGI_IN_COMPLETE) else y;
            ProcessedWord(y, started, refused) == if refused then RS.Set(z, RS.WORK_IN_COMPLETE) else z
  {
    hide RS.Set, RS.Unset;
    StartedWord(y);
    RefusedWord(y);
    RefusedWord(y & !0x40);
  }

  lemma StartedWord(y: RS.Flags)
    ensures RS.Unset(y, RS.CGI_IN_COMPLETE) == y & !0x40
  {}

  lemma RefusedWord(y: RS.Flags)
    ensures RS.Set(y, RS.WORK_IN_COMPLETE) == y | 0x10
  {}

  lemma WorkWord(x: RS.Flags, f: RS.Flags, w: RS.Flags)
    ensures RS.Set(RS.Set(x | 0x3, f), w & RS.WORK_COMPLETE) == HandledWord(x, f, w)
  {}

  // ---- The body, and the beginning of the answer

  /** An upload whose body is not complete takes what has come, and nothing is written before its end. In all
      other cases the answer begins: at once, with all work complete if it is an error without a page. */
  lemma WorkedRule(c: Conn, e: Event)
    requires e.SocketIn?
    ensures var pending := c.request && c.flags & 0x10 == 0;
            var status := if pending then e.workStatus else c.status;
            Worked(c, e) ==
            if pending && !e.workDone then c.(bodyStamp := At(e.now))
            else c.(status := status, sendStamp := At(e.now),
                    bodyStamp := if pending then At(e.now) else c.bodyStamp,
                    flags := AnswerWord(c.flags, pending, 400 <= status < 600 && !e.errorPage))
  {
    hide RS.Is, RS.Set, AnswerWord;
    AnswerWordIs(c.flags);
    if c.request && c.flags & 0x10 == 0 {
      BodyWordIs(c.flags);
      CompleteWordIs(c.flags);
    }
  }

  /** The word when an answer begins: after the end of a body, and with all work complete. */
  function AnswerWord(x: RS.Flags, body: bool, complete: bool): RS.Flags {
    if complete then x | 0x1F0 else if body then x | 0x190 else x | 0x100
  }

  lemma AnswerWordIs(x: RS.Flags)
    ensures RS.Is(x, RS.WORK_IN_COMPLETE) <==> x & 0x10 != 0
    ensures RS.Set(x, RS.CAN_WRITE) == AnswerWord(x, false, false)
    ensures RS.Set(RS.Set(x, RS.WORK_COMPLETE), RS.CAN_WRITE) == AnswerWord(x, false, true)
  {}

  lemma BodyWordIs(x: RS.Flags)
    ensures RS.Set(RS.Set(RS.Set(x, RS.WORK_IN_COMPLETE), RS.CGI_OUT_COMPLETE), RS.CAN_WRITE) == AnswerWord(x, true, false)
  {}

  lemma CompleteWordIs(x: RS.Flags)
    ensures RS.Set(RS.Set(RS.Set(RS.Set(x, RS.WORK_IN_COMPLETE), RS.CGI_OUT_COMPLETE), RS.WORK_COMPLETE), RS.CAN_WRITE)
            == AnswerWord(x, true, true)
  {}

  /** One input event: nothing when nothing could be read; else the head goes on, or the body, and the answer
      begins as soon as the head is done and no body is pending. */
  lemma SocketInRule(c: Conn, e: Event)
    requires e.SocketIn?
    ensures var d := OnSocketIn(c, e);
            if c.flags & 0x7 != 0x7 && !e.received.Data? then d == c
            else if c.flags & 0x3 == 0x3 then
              d == Worked(if c.flags & 0x7 == 0x7 then c else c.(bodyStamp := At(e.now)), e)
            else
              var (parsed, done) := ParseRequest(c, e.head, e.resolution);
              d == if done then Worked(parsed, e) else parsed
  {
    ReadWord(c.flags);
    hide RS.Is, Worked, ParseRequest;
  }

  lemma ReadWord(x: RS.Flags)
    ensures RS.Is(x, RS.READ_COMPLETE) <==> x & 0x7 == 0x7
    ensures RS.Is(x, RS.CLIENT_READ_COMPLETE) <==> x & 0x3 == 0x3
    ensures x & 0x7 == 0x7 ==> x & 0x3 == 0x3
  {}

  // ---- Output and CGI

  /** The body of an error page or of the request is complete when it has said so; the stamp tells the last octets
      that were taken. */
  lemma SocketOutRule(c: Conn, e: Event)
    requires e.SocketOut?
    ensures OnSocketOut(c, e)
            == c.(flags := if e.workOutDone && (400 <= c.status < 600 || c.request) then c.flags | 0x20 else c.flags,
                  sendStamp := if e.sending.Took? && e.sending.some then At(e.now) else c.sendStamp)
  {
    OutWord(c.flags);
    hide RS.Is, RS.Set;
  }

  lemma OutWord(x: RS.Flags)
    ensures RS.Set(x, RS.WORK_OUT_COMPLETE) == x | 0x20
    ensures RS.Is(x, RS.WORK_OUT_COMPLETE) ==> x | 0x20 == x
  {}

  /** Output of the CGI: its end completes all work, a malformed line the headers and the input, an empty line the
      headers; nothing is read once the input is complete. */
  lemma CgiInRule(c: Conn, e: Event)
    requires e.CgiIn?
    ensures OnCgiIn(c, e) ==
            if c.flags & 0x40 != 0 then c
            else c.(status := e.status, cgiSilent := c.cgiSilent && e.silent,
                    flags := match e.reading
                             case Ended(_) => c.flags | 0xF0
                             case Malformed => c.flags | 0x440
                             case More(headersDone) => if headersDone then c.flags | 0x400 else c.flags)
  {
    CgiWord(c.flags);
    hide RS.Is, RS.Set;
  }

  lemma CgiWord(x: RS.Flags)
    ensures RS.Is(x, RS.CGI_IN_COMPLETE) <==> x & 0x40 != 0
    ensures RS.Set(x, RS.WORK_COMPLETE) == x | 0xF0 && RS.Set(x, RS.CGI_HEADERS_COMPLETE) == x | 0x400
    ensures RS.Set(RS.Set(x, RS.CGI_HEADERS_COMPLETE), RS.CGI_IN_COMPLETE) == x | 0x440
  {}

  /** The body that a CGI is sent: its end completes the work in and the CGI out. */
  lemma CgiOutRule(c: Conn, e: Event)
    requires e.CgiOut?
    ensures OnCgiOut(c, e) == if e.done then c.(flags := c.flags | 0x90, status := e.status) else c
  {
    BodyWord(c.flags);
    hide RS.Is, RS.Set;
  }

  lemma BodyWord(x: RS.Flags)
    ensures RS.Set(RS.Set(x, RS.WORK_IN_COMPLETE), RS.CGI_OUT_COMPLETE) == x | 0x90
  {}

  // ---- When an answer is written

  /** An answer may be written only when the head is complete and no body is pending. */
  predicate WritesLate(c: Conn) {
    c.flags & 0x100 != 0 ==> c.flags & 0x2 != 0 && (c.request ==> c.flags & 0x10 != 0)
  }

  lemma AnswerBits(x: RS.Flags, body: bool, complete: bool)
    ensures var y := AnswerWord(x, body, complete);
            (y & 0x2 != 0 <==> x & 0x2 != 0) && (y & 0x10 != 0 <==> x & 0x10 != 0 || body || complete)
  {}

  lemma WorkedWritesLate(c: Conn, e: Event)
    requires e.SocketIn? && c.flags & 0x2 != 0 && WritesLate(c)
    ensures WritesLate(Worked(c, e))
  {
    WorkedRule(c, e);
    AnswerBits(c.flags, false, false);
    AnswerBits(c.flags, false, true);
    AnswerBits(c.flags, true, false);
    AnswerBits(c.flags, true, true);
    hide Worked, AnswerWord;
  }

  lemma ParsedBits(x: RS.Flags)
    requires x & 0x102 == 0
    ensures x & 0x100 == 0 && x & 0x2 == 0 && (x | 0x1) & 0x100 == 0
    ensures (x | 0x17) & 0x102 == 0x2 && (x | 0x13) & 0x102 == 0x2 && (x | 0xF3) & 0x102 == 0x2
  {}

  lemma HandledBits(x: RS.Flags, verb: nat, p: Processing)
    requires x & 0x102 == 0
    ensures ProcessedWord(HandledWord(x, ConstructorFlags(verb), p.work), p.started, p.status != 0) & 0x102 == 0x2
  {
    ConstructorBits(verb);
    WorkBits(x, ConstructorFlags(verb), p.work);
    hide ConstructorFlags, ProcessedWord, HandledWord;
    ProcessedBits(HandledWord(x, ConstructorFlags(verb), p.work), p.started, p.status != 0);
  }

  lemma ConstructorBits(verb: nat)
    ensures ConstructorFlags(verb) & 0x102 == 0
  {}

  lemma WorkBits(x: RS.Flags, f: RS.Flags, w: RS.Flags)
    requires x & 0x102 == 0 && f & 0x102 == 0
    ensures HandledWord(x, f, w) & 0x102 == 0x2
  {}

  lemma ProcessedBits(y: RS.Flags, started: bool, refused: bool)
    ensures ProcessedWord(y, started, refused) & 0x102 == y & 0x102
  {}

  lemma SplitBits(x: RS.Flags)
    ensures x & 0x102 == 0x2 ==> x & 0x100 == 0 && x & 0x2 != 0
    ensures x & 0x100 == 0 && x & 0x2 == 0 ==> x & 0x102 == 0
    ensures x & 0x3 == 0x3 ==> x & 0x2 != 0
  {}

  lemma ParsedWritesLate(c: Conn, head: Phase, resolution: Resolution)
    requires c.flags & 0x102 == 0 && c.status == 0 && (head.Failed? ==> head.status >= 400)
    ensures var (d, done) := ParseRequest(c, head, resolution);
            d.flags & 0x100 == 0 && (done ==> d.flags & 0x2 != 0)
  {
    ParsedBits(c.flags);
    ParseRule(c, head, resolution);
    var d := ParseRequest(c, head, resolution).0;
    SplitBits(d.flags);
    if head.Complete? && resolution.Handled? { HandledBits(c.flags, resolution.verb, resolution.result); }
    hide ParseRequest, HandledWord, ProcessedWord;
  }

  lemma InputWritesLate(c: Conn, e: Event)
    requires e.SocketIn? && Inv(c) && WritesLate(c) && Possible(c, e)
    ensures WritesLate(OnSocketIn(c, e))
  {
    SocketInRule(c, e);
    SplitBits(c.flags);
    if c.flags & 0x3 == 0x3 {
      WorkedWritesLate(c, e);
      WorkedWritesLate(c.(bodyStamp := At(e.now)), e);
      hide Worked, OnSocketIn;
    } else if c.flags & 0x7 == 0x7 || e.received.Data? {
      HeadIsOpen(c);
      ParsedWritesLate(c, e.head, e.resolution);
      var d := ParseRequest(c, e.head, e.resolution).0;
      hide ParseRequest, Worked, OnSocketIn;
      if d.flags & 0x2 != 0 { WorkedWritesLate(d, e); }
    }
  }

  lemma HeadIsOpen(c: Conn)
    requires Inv(c) && c.flags & 0x3 != 0x3
    ensures c.flags & 0x2 == 0 && c.status == 0 && !c.request
  {
    ReadWord(c.flags);
    NoRequestYet(c);
  }

  lemma OutputBits(x: RS.Flags, mask: RS.Flags)
    requires mask & 0x100 == 0
    ensures (x | mask) & 0x100 == x & 0x100
    ensures x & 0x2 != 0 ==> (x | mask) & 0x2 != 0
    ensures x & 0x10 != 0 ==> (x | mask) & 0x10 != 0
  {}

  lemma TimeoutBits(x: RS.Flags, errorPage: bool)
    ensures TimeoutWord(x, errorPage) & 0x10 != 0
    ensures x & 0x2 != 0 ==> TimeoutWord(x, errorPage) & 0x2 != 0 && TimeoutWord(x | 0x7, errorPage) & 0x2 != 0
    ensures TimeoutWord(x | 0x7, errorPage) & 0x2 != 0 && TimeoutWord(x | 0x7, errorPage) & 0x10 != 0
  {}

  lemma StampMeansHead(c: Conn)
    requires Inv(c)
    ensures c.bodyStamp.At? || c.request ==> c.flags & 0x2 != 0
  {
    BitTests(c.flags);
    if c.request { CgiHasHeaders(c); }
  }

  lemma TickWritesLate(c: Conn, e: Event, t: Timeouts)
    requires e.Tick? && Inv(c) && WritesLate(c)
    ensures WritesLate(OnTick(c, e, t))
  {
    TickAnswers(c, e, t);
    TimeoutBits(c.flags, e.errorPage);
    StampMeansHead(c);
    hide OnTick, Inv, TimeoutWord;
  }

  lemma CgiWritesLate(c: Conn, e: Event)
    requires e.CgiIn? || e.CgiOut? || e.SocketOut?
    requires Inv(c) && WritesLate(c)
    ensures e.CgiIn? ==> WritesLate(OnCgiIn(c, e))
    ensures e.CgiOut? ==> WritesLate(OnCgiOut(c, e))
    ensures e.SocketOut? ==> WritesLate(OnSocketOut(c, e))
  {
    OutputBits(c.flags, 0xF0);
    OutputBits(c.flags, 0x440);
    OutputBits(c.flags, 0x400);
    OutputBits(c.flags, 0x90);
    OutputBits(c.flags, 0x20);
    if e.CgiIn? { CgiInRule(c, e); }
    if e.CgiOut? { CgiOutRule(c, e); }
    if e.SocketOut? { SocketOutRule(c, e); }
    hide OnCgiIn, OnCgiOut, OnSocketOut, Inv;
  }

  /** Over every run: nothing is written before the head is complete, and nothing to a request whose body is
      pending. */
  lemma {:induction false} RunWritesLate(c: Conn, events: seq<Event>, t: Timeouts)
    requires Inv(c) && WritesLate(c) && PossibleRun(c, events, t)
    ensures WritesLate(Run(c, events, t))
    decreases events
  {
    if events != [] {
      var e := events[0];
      StepAdvances(c, e, t);
      match e {
        case SocketIn(_, _, _, _, _, _, _) => InputWritesLate(c, e);
        case Tick(_, _) => TickWritesLate(c, e, t);
        case _ => CgiWritesLate(c, e);
      }
      assert Inv(Step(c, e, t)) && WritesLate(Step(c, e, t));
      hide Step, Inv, WritesLate, Possible, Advances;
      RunWritesLate(Step(c, e, t), events[1..], t);
    }
  }

  lemma AcceptedWritesLate(now: int)
    ensures WritesLate(Accepted(now))
  {}
}
