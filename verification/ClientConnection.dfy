/** The event handlers of a client (srcs/Client/Client.cpp:243-390), which update its flag word, stamps
    and request step by step, proved against module Connection. */
module ClientConnection {
  import RS = RequestState
  import opened HeadParsing
  import opened Connection
  import opened ConnectionRules
  import opened RequestBody

  class Client {
    var requestState: RS.Flags
    var statusCode: int
    var hasRequest: bool
    var hasCgi: bool
    var cgiSilent: bool
    var headerStamp: int
    var bodyStamp: Stamp
    var sendStamp: Stamp
    ghost var created: nat
    ghost var timeouts: nat
    ghost var refusedLate: bool

    /** The connection value that the fields make up. */
    ghost function State(): Conn
      reads this
    {
      Conn(requestState, statusCode, hasRequest, hasCgi, cgiSilent, headerStamp, bodyStamp, sendStamp,
           created, timeouts, refusedLate)
    }

    constructor (now: int)
      ensures State() == Accepted(now)
    {
      requestState := RS.NONE;
      statusCode := 0;
      hasRequest, hasCgi, cgiSilent := false, false, true;
      headerStamp, bodyStamp, sendStamp := now, Never, Never;
      created, timeouts, refusedLate := 0, 0, false;
    }

    predicate Is(mask: RS.Flags)
      reads this
    {
      RS.Is(requestState, mask)
    }

    method ParseHead(head: Phase)
      modifies this
      ensures State() == Parsed(old(State()), head)
    {
      match head
      case AwaitLine =>
      case AwaitHeaders =>
        requestState := RS.Set(requestState, RS.READ_REQUEST_LINE_COMPLETE);
      case Complete =>
        requestState := RS.Set(requestState, RS.READ_REQUEST_LINE_COMPLETE);
        requestState := RS.Set(requestState, RS.READ_HEADERS_COMPLETE);
      case Failed(status) =>
        statusCode := status;
        requestState := RS.Set(requestState, RS.READ_COMPLETE);
    }

    /** The request object is built. */
    method Construct(verb: nat)
      modifies this`requestState, this`hasRequest, this`created
      ensures State() == Constructed(old(State()), verb)
    {
      requestState := RS.Set(requestState, ConstructorFlags(verb));
      hasRequest, created := true, created + 1;
    }

    /** The request processes its headers. */
    method Process(p: Processing)
      modifies this`requestState, this`statusCode, this`hasCgi
      ensures State() == Processed(old(State()), p) && statusCode == p.status
    {
      hide RS.Set, RS.Unset, RS.Is;
      requestState := RS.Set(requestState, p.work & RS.WORK_COMPLETE);
      if p.started {
        requestState := RS.Unset(requestState, RS.CGI_IN_COMPLETE);
      }
      statusCode := p.status;
      hasCgi := p.paired;
    }

    method ResolveARequest(resolution: Resolution) returns (r: Progress)
      modifies this
      ensures (State(), r == REQ_CONTINUE) == Resolved(old(State()), resolution)
    {
      hide RS.Set, Constructed, Processed;
      match resolution
      case Refused(status) =>
        statusCode := status;
        return REQ_CONTINUE;
      case Redirected(status) =>
        statusCode := status;
        requestState := RS.Set(requestState, RS.WORK_COMPLETE);
        return REQ_DONE;
      case Handled(verb, p) =>
        Construct(verb);
        Process(p);
        r := if statusCode != 0 then REQ_CONTINUE else REQ_DONE;
    }

    method ParseRequestHead(head: Phase, resolution: Resolution) returns (r: Progress)
      modifies this
      ensures (State(), r == REQ_DONE) == ParseRequest(old(State()), head, resolution)
    {
      hide RS.Is, RS.Set, Parsed, Resolved;
      ParseHead(head);
      if !Is(RS.READ_HEADERS_COMPLETE) {
        return REQ_CONTINUE;
      }
      if statusCode == 0 {
        r := ResolveARequest(resolution);
        if r != REQ_CONTINUE {
          return REQ_DONE;
        }
      }
      requestState := RS.Set(requestState, RS.WORK_IN_COMPLETE);
      r := REQ_DONE;
    }

    method FinishWorkIn(status: int)
      modifies this`requestState, this`statusCode
      ensures State() == WorkIn(old(State()), true, status)
    {
      statusCode := status;
      requestState := RS.Set(requestState, RS.WORK_IN_COMPLETE);
      requestState := RS.Set(requestState, RS.CGI_OUT_COMPLETE);
    }

    method LoadPage(configured: bool)
      modifies this`requestState
      ensures State() == LoadErrorPage(old(State()), configured)
    {
      if !configured {
        requestState := RS.Set(requestState, RS.WORK_COMPLETE);
      }
    }

    method BeginWriting(now: int)
      modifies this`requestState, this`sendStamp
      ensures State() == SwitchToWrite(old(State()), now)
    {
      requestState := RS.Set(requestState, RS.CAN_WRITE);
      sendStamp := At(now);
    }

    method HandleSocketIn(e: Event) returns (r: Progress)
      requires e.SocketIn?
      modifies this
      ensures State() == OnSocketIn(old(State()), e)
      ensures r == if old(Is(RS.READ_COMPLETE)) || e.received.Data? then REQ_CONTINUE
                   else if e.received.Closed? then REQ_DONE else REQ_ERROR
    {
      hide RS.Is, RS.Set, ParseRequest, Worked;
      if !Is(RS.READ_COMPLETE) {
        if e.received.Closed? {
          return REQ_DONE;
        }
        if e.received.Error? {
          return REQ_ERROR;
        }
        // the read appends to the buffer
        if Is(RS.CLIENT_READ_COMPLETE) {
          bodyStamp := At(e.now);
        }
      }
      if !Is(RS.CLIENT_READ_COMPLETE) {
        r := ParseRequestHead(e.head, e.resolution);
        if r != REQ_DONE {
          return REQ_CONTINUE;
        }
      }
      r := Work(e);
    }

    /** The rest of `_handleSocketIn`: the request takes the body, and the answer is prepared. */
    method Work(e: Event) returns (r: Progress)
      requires e.SocketIn?
      modifies this
      ensures State() == Worked(old(State()), e) && r == REQ_CONTINUE
    {
      hide RS.Is, RS.Set, WorkIn, LoadErrorPage, SwitchToWrite;
      if hasRequest && !Is(RS.WORK_IN_COMPLETE) {
        bodyStamp := At(e.now);
        if !e.workDone {
          WorkGoesOn(State(), e.workStatus);
          return REQ_CONTINUE;
        }
        FinishWorkIn(e.workStatus);
      }
      if 400 <= statusCode < 600 {
        LoadPage(e.errorPage);
      }
      BeginWriting(e.now);
      r := REQ_CONTINUE;
    }

    method HandleSocketOut(e: Event) returns (r: Progress)
      requires e.SocketOut?
      modifies this
      ensures State() == OnSocketOut(old(State()), e)
      ensures r == if e.sending.Unsent? then REQ_ERROR
                   else if e.sending.drained && Is(RS.WORK_COMPLETE) then REQ_DONE else REQ_CONTINUE
    {
      hide RS.Is, RS.Set;
      if !Is(RS.WORK_OUT_COMPLETE) && 400 <= statusCode < 600 {
        // the error page is read
        if e.workOutDone {
          requestState := RS.Set(requestState, RS.WORK_OUT_COMPLETE);
        }
      } else if !Is(RS.WORK_OUT_COMPLETE) && hasRequest {
        if e.workOutDone {
          requestState := RS.Set(requestState, RS.WORK_OUT_COMPLETE);
        }
      }
      if e.sending.Unsent? {
        return REQ_ERROR;
      }
      if e.sending.some {
        sendStamp := At(e.now);
      }
      r := if e.sending.drained && Is(RS.WORK_COMPLETE) then REQ_DONE else REQ_CONTINUE;
    }

    method HandleCgiIn(e: Event) returns (r: Progress)
      requires e.CgiIn?
      modifies this
      ensures State() == OnCgiIn(old(State()), e)
      ensures r == if e.reading == Ended(true) && !old(Is(RS.CGI_IN_COMPLETE)) then REQ_ERROR else REQ_CONTINUE
    {
      hide RS.Is, RS.Set;
      if Is(RS.CGI_IN_COMPLETE) {
        return REQ_CONTINUE;
      }
      r := REQ_CONTINUE;
      match e.reading {
        case Ended(failed) =>
          requestState := RS.Set(requestState, RS.WORK_COMPLETE);
          if failed {
            r := REQ_ERROR;
          }
        case Malformed =>
          requestState := RS.Set(requestState, RS.CGI_HEADERS_COMPLETE);
          requestState := RS.Set(requestState, RS.CGI_IN_COMPLETE);
        case More(headersDone) =>
          if headersDone {
            requestState := RS.Set(requestState, RS.CGI_HEADERS_COMPLETE);
          }
      }
      if !e.silent {
        cgiSilent := false;
      }
      statusCode := e.status;
    }

    method HandleCgiOut(e: Event)
      requires e.CgiOut?
      modifies this
      ensures State() == OnCgiOut(old(State()), e)
    {
      if e.done {
        FinishWorkIn(e.status);
      }
    }

    method Answer(status: int, e: Event)
      requires e.Tick?
      modifies this`requestState, this`statusCode, this`sendStamp
      ensures State() == AnswerTimeout(old(State()), status, e)
    {
      hide LoadErrorPage, SwitchToWrite;
      statusCode := status;
      requestState := RS.Set(requestState, RS.WORK_COMPLETE);
      requestState := RS.Unset(requestState, RS.WORK_OUT_COMPLETE);
      LoadPage(e.errorPage);
      BeginWriting(e.now);
    }

    /** A connection that is ready to write and has sent nothing for too long ends, unless it waits for a
        CGI that has not said anything yet. */
    method TimeoutCheck(e: Event, t: Timeouts) returns (r: Progress)
      requires e.Tick?
      modifies this
      ensures var c := old(State());
              r == (if !HeaderTimesOut(c, t, e.now) && !BodyTimesOut(c, t, e.now)
                       && c.Is(RS.CAN_WRITE) && Expired(c.sendStamp, t.send, e.now) && !(c.request && c.cgiSilent)
                    then REQ_DONE else REQ_CONTINUE)
      ensures State() == OnTick(old(State()), e, t)
    {
      hide RS.Is, RS.Set, AnswerTimeout;
      if !Is(RS.READ_HEADERS_COMPLETE) && t.header != 0 && e.now - headerStamp >= t.header {
        requestState := RS.Set(requestState, RS.READ_COMPLETE);
        Answer(408, e);
        timeouts, refusedLate := timeouts + 1, true;
        return REQ_CONTINUE;
      }
      if (!Is(RS.WORK_IN_COMPLETE) || !Is(RS.CGI_OUT_COMPLETE)) && Expired(bodyStamp, t.body, e.now) {
        Answer(408, e);
        timeouts := timeouts + 1;
        return REQ_CONTINUE;
      }
      if Is(RS.CAN_WRITE) && Expired(sendStamp, t.send, e.now) {
        if !hasRequest || !cgiSilent {
          return REQ_DONE;
        }
        Answer(504, e);
      }
      r := REQ_CONTINUE;
    }

    /** One event of the loop. */
    method Handle(e: Event, t: Timeouts) returns (r: Progress)
      modifies this
      ensures State() == Step(old(State()), e, t)
      ensures r == REQ_CONTINUE || e.CgiIn? || e.CgiOut? <==> !Finishes(old(State()), e, t)
    {
      FinishesExactly(State(), e, t);
      hide RS.Is, OnSocketIn, OnSocketOut, OnCgiIn, OnCgiOut, OnTick, Finishes;
      match e
      case SocketIn(_, _, _, _, _, _, _) => r := HandleSocketIn(e);
      case SocketOut(_, _, _) => r := HandleSocketOut(e);
      case CgiIn(_, _, _) => r := HandleCgiIn(e);
      case CgiOut(_, _) => HandleCgiOut(e); r := REQ_CONTINUE;
      case Tick(_, _) => r := TimeoutCheck(e, t);
    }

    /** The life of a connection: its events up to the one that ends it, which is never one of its CGI socket. At
        most one request is built and at most one 408 is answered, and none is built for a head that came too
        late. */
    method HandleEvents(now: int, events: seq<Event>, t: Timeouts) returns (handled: nat)
      requires State() == Accepted(now) && PossibleRun(State(), events, t)
      modifies this
      ensures handled <= |events| && State() == Run(Accepted(now), events[..handled], t)
      ensures forall k :: 0 <= k < handled - 1 ==> !Finishes(Run(Accepted(now), events[..k], t), events[k], t)
      ensures handled < |events| ==>
                handled > 0 && Finishes(Run(Accepted(now), events[..handled - 1], t), events[handled - 1], t)
      ensures ReadBits(requestState)
      ensures created <= 1 && (hasRequest <==> created == 1) && (hasCgi ==> hasRequest)
      ensures Count408(Accepted(now), events[..handled], t) <= 1 && (refusedLate ==> created == 0)
    {
      hide Step, Inv, Possible, Finishes, Count408;
      AcceptedInv(now);
      assert events[0..] == events && Run(State(), events[..0], t) == State();
      handled := 0;
      var ended := false;
      while handled < |events| && !ended
        invariant handled <= |events| && State() == Run(Accepted(now), events[..handled], t)
        invariant Inv(State()) && PossibleRun(State(), events[handled..], t)
        invariant forall k :: 0 <= k < handled - 1 ==> !Finishes(Run(Accepted(now), events[..k], t), events[k], t)
        invariant handled > 0 ==>
                    (ended <==> Finishes(Run(Accepted(now), events[..handled - 1], t), events[handled - 1], t))
        invariant handled == 0 ==> !ended
      {
        var e := events[handled];
        assert events[handled..][0] == e && events[handled..][1..] == events[handled + 1..];
        RunSnoc(Accepted(now), events, handled, t);
        StepAdvances(State(), e, t);
        var r := Handle(e, t);
        ended := r != REQ_CONTINUE && !e.CgiIn? && !e.CgiOut?;
        handled := handled + 1;
      }
      InvSays(State());
      PossiblePrefix(Accepted(now), events, handled, t);
      AtMostOne408(Accepted(now), events[..handled], t);
    }
  }

  lemma {:induction false} PossiblePrefix(c: Conn, events: seq<Event>, k: nat, t: Timeouts)
    requires k <= |events| && PossibleRun(c, events, t)
    ensures PossibleRun(c, events[..k], t)
    decreases k
  {
    hide Step, Possible;
    if k > 0 {
      assert events[..k][0] == events[0] && events[..k][1..] == events[1..][..k - 1];
      PossiblePrefix(Step(c, events[0], t), events[1..], k - 1, t);
    }
  }

  lemma InvSays(c: Conn)
    requires Inv(c)
    ensures ReadBits(c.flags) && c.created <= 1 && (c.request <==> c.created == 1) && (c.cgi ==> c.request)
    ensures c.refusedLate ==> c.created == 0
  {}

  lemma {:induction false} RunSnoc(c: Conn, events: seq<Event>, k: nat, t: Timeouts)
    requires k < |events|
    ensures Run(c, events[..k + 1], t) == Step(Run(c, events[..k], t), events[k], t)
    decreases k
  {
    hide Step;
    if k == 0 {
      assert events[..1][1..] == [] && Run(Step(c, events[0], t), [], t) == Step(c, events[0], t);
    } else {
      assert events[..k + 1][1..] == events[1..][..k] && events[..k][1..] == events[1..][..k - 1];
      RunSnoc(Step(c, events[0], t), events[1..], k - 1, t);
    }
  }

  /** `Finishes` in terms of the tests of the handlers. */
  lemma FinishesExactly(c: Conn, e: Event, t: Timeouts)
    ensures match e
            case SocketIn(_, received, _, _, _, _, _) => Finishes(c, e, t) <==> !c.Is(RS.READ_COMPLETE) && !received.Data?
            case SocketOut(_, _, sending) =>
              Finishes(c, e, t) <==> sending.Unsent? || (sending.drained && OnSocketOut(c, e).Is(RS.WORK_COMPLETE))
            case Tick(now, _) =>
              Finishes(c, e, t) <==>
              !HeaderTimesOut(c, t, now) && !BodyTimesOut(c, t, now)
              && c.Is(RS.CAN_WRITE) && Expired(c.sendStamp, t.send, now) && !(c.request && c.cgiSilent)
            case _ => !Finishes(c, e, t)
  {
    FinishBits(c.flags);
    if e.SocketOut? { FinishBits(OnSocketOut(c, e).flags); }
    if e.Tick? { LateTests(c, t, e.now); }
    hide RS.Is, LateHead, LateBody, HeaderTimesOut, BodyTimesOut, OnSocketOut;
  }

  lemma FinishBits(x: RS.Flags)
    ensures RS.Is(x, RS.READ_COMPLETE) <==> x & 0x7 == 0x7
    ensures RS.Is(x, RS.WORK_COMPLETE) <==> x & 0xF0 == 0xF0
    ensures RS.Is(x, RS.CAN_WRITE) <==> x & 0x100 != 0
  {}

  lemma WorkGoesOn(c: Conn, status: int)
    ensures WorkIn(c, false, status) == c
  {}
}
