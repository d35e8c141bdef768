/** Relaying the output of a CGI program (section 6 of RFC 3875) to the client
    (srcs/Request/ARequest-cgi.cpp, srcs/Client/Client.cpp:216-241): the value of the relay between two
    events, and what reaches the wire in a whole run. */
module CgiRelay {
  import opened Octets
  import opened Numbers
  import opened Responses
  import RS = RequestState

  const HEADER_STATUS: octets := "Status"

  /** `received` is the history of what `recv` returned, `sent` of what `send` took. */
  datatype Relay = Relay(
    received: octets, readBuffer: octets, fields: seq<Field>, headersComplete: bool, inComplete: bool,
    response: octets, sent: octets)

  function Start(fields: seq<Field>): Relay {
    Relay("", "", fields, false, false, "", "")
  }

  // ---- Header lines

  /** How far the header lines of a CGI output go. */
  datatype Scan = Incomplete(fields: seq<Field>, rest: octets)
                | Done(fields: seq<Field>, rest: octets)
                | Malformed(rest: octets)

  /** All complete header lines of `input`, up to the empty one. */
  function ScanHead(fields: seq<Field>, input: octets): (s: Scan)
    decreases |input|
  {
    var pos := Find(input, CRLF);
    if pos == NPOS then Incomplete(fields, input)
    else if pos == 0 then Done(fields, input[2..])
    else
      var line := input[..pos];
      var colon := Find(line, ": ");
      if colon == NPOS then Malformed(input[pos + 2..])
      else ScanHead(Put(fields, line[..colon], line[colon + 2..]), input[pos + 2..])
  }

  /** `cgiStatusToStatus`: the code, and the reason that is left. */
  function CgiStatus(value: octets): (r: (nat, octets)) {
    if |value| < 3 || !AllDigits(value[..3], Decimal) then (500, value)
    else (Value(value[..3], Decimal), if |value| <= 4 then "" else value[4..])
  }

  /** The response head once the empty line has been read. */
  function HeadOf(fields: seq<Field>): Response {
    var i := Lookup(fields, HEADER_STATUS);
    if i == NPOS then Response(200, OK, fields)
    else
      var (code, reason) := CgiStatus(fields[i].value);
      Response(code, reason, fields[..i] + fields[i + 1..])
  }

  /** `_parseCGIHeaders`. */
  function ParseHeaders(r: Relay): Relay {
    match ScanHead(r.fields, r.readBuffer)
    case Incomplete(fields, rest) => r.(fields := fields, readBuffer := rest)
    case Done(fields, rest) =>
      r.(fields := HeadOf(fields).fields, readBuffer := rest, headersComplete := true, response := HeadOf(fields).Serialise())
    case Malformed(rest) =>
      r.(fields := [], readBuffer := rest, headersComplete := true, inComplete := true,
         response := SERVER_ERROR.Serialise())
  }

  datatype Event = Receive(data: octets) | EndOfFile | Send(count: nat)

  /** A CGI input event: `recv` returned `data`, not empty. */
  function OnReceive(r: Relay, data: octets): Relay {
    if r.inComplete then r
    else
      var r1 := r.(received := r.received + data, readBuffer := r.readBuffer + data);
      var r2 := if r1.headersComplete then r1 else ParseHeaders(r1);
      if r2.headersComplete then r2.(response := r2.response + r2.readBuffer, readBuffer := "") else r2
  }

  /** A CGI input event: `recv` returned 0. */
  function OnEndOfFile(r: Relay): Relay {
    if r.inComplete then r
    else if r.headersComplete then r.(inComplete := true)
    else r.(inComplete := true, fields := [], response := SERVER_ERROR.Serialise())
  }

  /** `_sendResponse`, `send` having taken `count` octets of what it was offered. */
  function OnSend(r: Relay, count: nat): Relay {
    var offered := if RS.REQ_BUFFER_SIZE > |r.response| then |r.response| else RS.REQ_BUFFER_SIZE;
    var bytes := if count <= offered then count else offered;
    r.(sent := r.sent + r.response[..bytes], response := r.response[bytes..])
  }

  /** A send takes what the socket takes of the first 65536 octets of the queue. */
  lemma SendTakes(r: Relay, count: nat)
    ensures exists n: nat ::
              && n <= count && n <= 65536 && n <= |r.response| && (n == count || n == 65536 || n == |r.response|)
              && OnSend(r, count) == r.(sent := r.sent + r.response[..n], response := r.response[n..])
  {
    var n := if count <= |r.response| then count else |r.response|;
    var m := if n <= 65536 then n else 65536;
    assert OnSend(r, count) == r.(sent := r.sent + r.response[..m], response := r.response[m..]);
  }

  function Step(r: Relay, e: Event): Relay {
    match e
    case Receive(data) => OnReceive(r, data)
    case EndOfFile => OnEndOfFile(r)
    case Send(count) => OnSend(r, count)
  }

  function Run(r: Relay, events: seq<Event>): Relay
    decreases events
  {
    if events == [] then r else Run(Step(r, events[0]), events[1..])
  }

  // ---- Printing a CGI output and reading it

  predicate Printable(f: Field) {
    '\r' !in f.name && '\r' !in f.value && Find(f.name + ": ", ": ") == |f.name|
  }

  function PutAll(fields: seq<Field>, more: seq<Field>): seq<Field>
    decreases more
  {
    if more == [] then fields else PutAll(Put(fields, more[0].name, more[0].value), more[1..])
  }

  lemma ScanPrintedLine(fields: seq<Field>, f: Field, rest: octets)
    requires Printable(f)
    ensures ScanHead(fields, f.name + ": " + f.value + CRLF + rest) == ScanHead(Put(fields, f.name, f.value), rest)
  {
    var line := f.name + ": " + f.value;
    FindLineEnd(line, rest);
    FindExtends(f.name + ": ", ": ", f.value);
    var s := line + CRLF + rest;
    assert s[..|line|] == line && s[|line| + 2..] == rest;
    assert line[..|f.name|] == f.name && line[|f.name| + 2..] == f.value;
    hide Find, Put;
  }

  lemma ScanEmptyLine(fields: seq<Field>, body: octets)
    ensures ScanHead(fields, CRLF + body) == Done(fields, body)
  {
    FindLineEnd("", body);
    assert "" + CRLF + body == CRLF + body;
    assert (CRLF + body)[2..] == body;
  }

  /** The lines that a CGI program prints are read as the fields they were printed from, and what
      follows the empty line as the body. */
  lemma {:induction false} ScanPrinted(fields: seq<Field>, more: seq<Field>, body: octets)
    requires forall i :: 0 <= i < |more| ==> Printable(more[i])
    ensures ScanHead(fields, Lines(more) + (CRLF + body)) == Done(PutAll(fields, more), body)
    decreases more
  {
    hide ScanHead, Put, Find;
    if more == [] {
      ScanEmptyLine(fields, body);
      assert Lines(more) + (CRLF + body) == CRLF + body;
    } else {
      var f, rest := more[0], Lines(more[1..]) + (CRLF + body);
      ScanPrintedLine(fields, f, rest);
      Assoc(f.name + ": " + f.value + CRLF, Lines(more[1..]), CRLF + body);
      ScanPrinted(Put(fields, f.name, f.value), more[1..], body);
    }
  }

  // ---- The whole-output specification

  /** What the whole output of a CGI program is to put on the wire. */
  function Wire(fields: seq<Field>, input: octets): octets {
    match ScanHead(fields, input)
    case Done(fs, body) => HeadOf(fs).Serialise() + body
    case Incomplete(_, _) => SERVER_ERROR.Serialise()
    case Malformed(rest) => SERVER_ERROR.Serialise() + rest
  }

  /** What has been sent, and what is still queued. */
  function OnWire(r: Relay): octets {
    r.sent + r.response
  }

  /** The octets on the wire are what the specification says for the octets received; nothing is there
      before the head is decided. */
  predicate Faithful(r: Relay, fields: seq<Field>) {
    match ScanHead(fields, r.received)
    case Incomplete(fs, rest) =>
      if r.inComplete then OnWire(r) == Wire(fields, r.received)
      else !r.headersComplete && r.fields == fs && r.readBuffer == rest && r.sent == "" && r.response == ""
    case Done(_, _) => r.headersComplete && r.readBuffer == "" && OnWire(r) == Wire(fields, r.received)
    case Malformed(_) => r.inComplete && OnWire(r) == Wire(fields, r.received)
  }

  lemma {:induction false} ScanExtends(fields: seq<Field>, input: octets, more: octets)
    ensures match ScanHead(fields, input)
            case Incomplete(fs, rest) => ScanHead(fields, input + more) == ScanHead(fs, rest + more)
            case Done(fs, rest) => ScanHead(fields, input + more) == Done(fs, rest + more)
            case Malformed(rest) => ScanHead(fields, input + more) == Malformed(rest + more)
    decreases |input|
  {
    hide Find, Put;
    FindExtends(input, CRLF, more);
    var pos := Find(input, CRLF);
    if pos != NPOS {
      TakeDropAppend(input, more, pos);
      TakeDropAppend(input, more, pos + 2);
      var line := input[..pos];
      var colon := Find(line, ": ");
      if pos != 0 && colon != NPOS {
        ScanExtends(Put(fields, line[..colon], line[colon + 2..]), input[pos + 2..], more);
      }
    }
  }

  lemma ReceiveKeeps(r: Relay, fields: seq<Field>, data: octets)
    requires Faithful(r, fields)
    ensures Faithful(OnReceive(r, data), fields)
  {
    hide ScanHead, HeadOf, Response.Serialise;
    if !r.inComplete {
      ScanExtends(fields, r.received, data);
      match ScanHead(fields, r.received)
      case Incomplete(fs, rest) =>
        match ScanHead(fs, rest + data) {
          case Done(fs', body) => assert "" + (HeadOf(fs').Serialise() + body) == HeadOf(fs').Serialise() + body;
          case _ =>
        }
      case Done(fs, body) =>
        assert "" + data == data;
        Assoc(r.sent, r.response, data);
        Assoc(HeadOf(fs).Serialise(), body, data);
      case Malformed(_) =>
    }
  }

  lemma SendKeeps(r: Relay, fields: seq<Field>, count: nat)
    requires Faithful(r, fields)
    ensures Faithful(OnSend(r, count), fields)
  {
    hide ScanHead, HeadOf, Response.Serialise;
    var offered := if RS.REQ_BUFFER_SIZE > |r.response| then |r.response| else RS.REQ_BUFFER_SIZE;
    var bytes := if count <= offered then count else offered;
    Assoc(r.sent, r.response[..bytes], r.response[bytes..]);
    assert r.response[..bytes] + r.response[bytes..] == r.response;
  }

  /** Fidelity: in every run, whatever the sizes of reads and sends and however they interleave, the
      octets sent and queued are the serialised head and then exactly the CGI body, and nothing goes
      out before the head. */
  lemma {:induction false} Fidelity(r: Relay, fields: seq<Field>, events: seq<Event>)
    requires Faithful(r, fields)
    ensures Faithful(Run(r, events), fields)
    decreases events
  {
    if events != [] {
      hide Faithful, OnReceive, OnSend, OnEndOfFile;
      match events[0] {
        case Receive(data) => ReceiveKeeps(r, fields, data);
        case EndOfFile => EndKeeps(r, fields);
        case Send(count) => SendKeeps(r, fields, count);
      }
      Fidelity(Step(r, events[0]), fields, events[1..]);
    }
  }

  lemma EndKeeps(r: Relay, fields: seq<Field>)
    requires Faithful(r, fields)
    ensures Faithful(OnEndOfFile(r), fields)
  {
    hide ScanHead, HeadOf, Response.Serialise;
    assert "" + SERVER_ERROR.Serialise() == SERVER_ERROR.Serialise();
  }

  /** Two runs that received the same octets, which decide the head, have put the same octets on the wire,
      up to what is still queued. */
  lemma SameWire(fields: seq<Field>, events1: seq<Event>, events2: seq<Event>)
    requires Run(Start(fields), events1).received == Run(Start(fields), events2).received
    requires !ScanHead(fields, Run(Start(fields), events1).received).Incomplete?
    ensures var r1, r2 := Run(Start(fields), events1), Run(Start(fields), events2);
            OnWire(r1) == OnWire(r2) == Wire(fields, r1.received)
  {
    StartFaithful(fields);
    hide Run, ScanHead, Wire;
    Fidelity(Start(fields), fields, events1);
    Fidelity(Start(fields), fields, events2);
  }

  lemma StartFaithful(fields: seq<Field>)
    ensures Faithful(Start(fields), fields)
  {}

  /** Once the queue is empty the client has exactly what the specification says. */
  lemma Delivered(fields: seq<Field>, events: seq<Event>)
    requires Run(Start(fields), events).response == ""
    ensures var r := Run(Start(fields), events);
            match ScanHead(fields, r.received)
            case Incomplete(_, _) => r.sent == if r.inComplete then Wire(fields, r.received) else ""
            case _ => r.sent == Wire(fields, r.received)
  {
    StartFaithful(fields);
    hide Run, ScanHead, Wire;
    Fidelity(Start(fields), fields, events);
  }

  // ---- A malformed header line, and how the output was cut

  /** What the relay has received once it has read `pieces`: it reads no further behind a malformed line. */
  function Heard(fields: seq<Field>, heard: octets, pieces: seq<octets>): octets
    decreases pieces
  {
    if pieces == [] || ScanHead(fields, heard).Malformed? then heard
    else Heard(fields, heard + pieces[0], pieces[1..])
  }

  /** The octets that the reads of a run brought. */
  function Reads(events: seq<Event>): seq<octets> {
    if events == [] then []
    else (if events[0].Receive? then [events[0].data] else []) + Reads(events[1..])
  }

  /** Before the end of the output only a malformed line stops the reading. */
  predicate Listening(r: Relay, fields: seq<Field>) {
    Faithful(r, fields) && (r.inComplete <==> ScanHead(fields, r.received).Malformed?)
  }

  lemma ListensOn(r: Relay, fields: seq<Field>, e: Event)
    requires Listening(r, fields) && !e.EndOfFile?
    ensures Listening(Step(r, e), fields)
    ensures Step(r, e).received == if e.Receive? && !r.inComplete then r.received + e.data else r.received
  {
    match e
    case Receive(data) =>
      ReceiveKeeps(r, fields, data);
      ScanExtends(fields, r.received, data);
      hide ScanHead, HeadOf, Response.Serialise;
    case Send(count) =>
      SendKeeps(r, fields, count);
      hide ScanHead;
  }

  lemma {:induction false} RunHears(r: Relay, fields: seq<Field>, events: seq<Event>)
    requires Listening(r, fields) && EndOfFile !in events
    ensures Listening(Run(r, events), fields)
    ensures Run(r, events).received == Heard(fields, r.received, Reads(events))
    decreases events
  {
    if events != [] {
      var e := events[0];
      ListensOn(r, fields, e);
      hide ScanHead, Step, Faithful;
      RunHears(Step(r, e), fields, events[1..]);
      if e.Receive? {
        assert Reads(events)[0] == e.data && Reads(events)[1..] == Reads(events[1..]);
        if r.inComplete { HeardEnough(fields, r.received, Reads(events[1..])); }
      } else {
        assert Reads(events) == Reads(events[1..]);
      }
    }
  }

  lemma HeardEnough(fields: seq<Field>, heard: octets, pieces: seq<octets>)
    requires ScanHead(fields, heard).Malformed?
    ensures Heard(fields, heard, pieces) == heard
  {}

  /** Where the scan of a head ends in whatever follows it. */
  lemma {:induction false} ScanEnds(fields: seq<Field>, input: octets, more: octets)
    ensures match ScanHead(fields, input)
            case Incomplete(fs, rest) =>
              var s := ScanHead(fs, rest + more);
              Find(rest, CRLF) == NPOS && (!s.Incomplete? ==> |s.rest| < |more|)
            case Done(_, rest) => |rest| < |input|
            case Malformed(rest) => |rest| < |input|
    decreases |input|
  {
    hide Find, Put;
    var pos := Find(input, CRLF);
    if pos == NPOS {
      FindExtends(input, CRLF, more);
      StepShrinks(fields, input + more);
    } else {
      var line := input[..pos];
      var colon := Find(line, ": ");
      if pos != 0 && colon != NPOS {
        ScanEnds(Put(fields, line[..colon], line[colon + 2..]), input[pos + 2..], more);
      }
    }
  }

  lemma {:induction false} StepShrinks(fields: seq<Field>, input: octets)
    ensures var s := ScanHead(fields, input);
            && |s.rest| <= |input|
            && (!s.Incomplete? ==> Find(input, CRLF) != NPOS && |s.rest| <= |input| - Find(input, CRLF) - 2)
    decreases |input|
  {
    hide Find, Put;
    var pos := Find(input, CRLF);
    if pos != NPOS {
      var line := input[..pos];
      var colon := Find(line, ": ");
      if pos != 0 && colon != NPOS {
        StepShrinks(Put(fields, line[..colon], line[colon + 2..]), input[pos + 2..]);
      }
    }
  }

  /** What has been read holds the malformed line of the output exactly when it reaches beyond that line. */
  lemma MalformedFrom(fields: seq<Field>, heard: octets, more: octets)
    requires ScanHead(fields, heard + more).Malformed?
    ensures ScanHead(fields, heard).Malformed? <==> |ScanHead(fields, heard + more).rest| >= |more|
    ensures ScanHead(fields, heard).Malformed? ==> ScanHead(fields, heard + more).rest == ScanHead(fields, heard).rest + more
  {
    ScanExtends(fields, heard, more);
    ScanEnds(fields, heard, more);
    hide ScanHead, Find;
  }

  /** Some read ends behind the malformed line of the output, at which `after` octets are left, and another
      one brings octets after it. */
  ghost predicate LateOctets(pieces: seq<octets>, after: nat) {
    exists k :: 0 <= k <= |pieces| && 0 < |Concat(pieces[k..])| <= after
  }

  lemma LateStep(pieces: seq<octets>, after: nat)
    requires pieces != []
    ensures LateOctets(pieces, after) <==> 0 < |Concat(pieces)| <= after || LateOctets(pieces[1..], after)
  {
    assert pieces[0..] == pieces;
    assert 0 < |Concat(pieces)| <= after ==> 0 < |Concat(pieces[0..])| <= after;
    assert forall k :: 1 <= k <= |pieces| ==> pieces[k..] == pieces[1..][k - 1..];
    if k :| 0 <= k <= |pieces[1..]| && 0 < |Concat(pieces[1..][k..])| <= after {
      assert pieces[1..][k..] == pieces[k + 1..];
    }
  }

  lemma {:induction false} HeardExactly(fields: seq<Field>, heard: octets, pieces: seq<octets>)
    ensures var output, got := heard + Concat(pieces), Heard(fields, heard, pieces);
            && got <= output
            && (got == output <==>
                !(ScanHead(fields, output).Malformed? && LateOctets(pieces, |ScanHead(fields, output).rest|)))
            && (got != output ==> ScanHead(fields, got).Malformed?)
    decreases pieces
  {
    var output := heard + Concat(pieces);
    hide ScanHead;
    ScanExtendsMalformed(fields, heard, Concat(pieces));
    if pieces == [] {
      assert output == heard;
    } else {
      var after := |ScanHead(fields, output).rest|;
      LateStep(pieces, after);
      if ScanHead(fields, output).Malformed? { MalformedFrom(fields, heard, Concat(pieces)); }
      if ScanHead(fields, heard).Malformed? {
        if Concat(pieces) == "" { NoneLate(pieces, after); }
      } else {
        Assoc(heard, pieces[0], Concat(pieces[1..]));
        HeardExactly(fields, heard + pieces[0], pieces[1..]);
      }
    }
  }

  lemma ScanExtendsMalformed(fields: seq<Field>, heard: octets, more: octets)
    ensures ScanHead(fields, heard).Malformed? ==> ScanHead(fields, heard + more).Malformed?
  {
    ScanExtends(fields, heard, more);
  }

  lemma {:induction false} NoneLate(pieces: seq<octets>, after: nat)
    requires Concat(pieces) == ""
    ensures !LateOctets(pieces, after)
  {
    if pieces != [] {
      LateStep(pieces, after);
      NoneLate(pieces[1..], after);
    }
  }

  lemma {:induction false} RunSplits(r: Relay, xs: seq<Event>, ys: seq<Event>)
    ensures Run(r, xs + ys) == Run(Run(r, xs), ys)
    decreases xs
  {
    hide Step;
    if xs == [] {
      assert xs + ys == ys;
    } else {
      assert (xs + ys)[0] == xs[0] && (xs + ys)[1..] == xs[1..] + ys;
      RunSplits(Step(r, xs[0]), xs[1..], ys);
    }
  }

  /** The reads and sends of a run that has come to the end of the output put on the wire what the
      specification says for the octets that the relay has heard. */
  lemma {:induction false} EndedWire(fields: seq<Field>, events: seq<Event>, sends: seq<Event>)
    requires EndOfFile !in events && (forall e <- sends :: e.Send?)
    ensures OnWire(Run(Start(fields), events + [EndOfFile] + sends))
            == Wire(fields, Heard(fields, "", Reads(events)))
  {
    var r := Run(Start(fields), events);
    assert Listening(Start(fields), fields);
    RunHears(Start(fields), fields, events);
    RunSplits(Start(fields), events, [EndOfFile]);
    RunSplits(Start(fields), events + [EndOfFile], sends);
    RunOne(r, EndOfFile);
    hide ScanHead, Run, HeadOf, Response.Serialise;
    EndKeeps(r, fields);
    SendsOnly(OnEndOfFile(r), sends);
  }

  lemma RunOne(r: Relay, e: Event)
    ensures Run(r, [e]) == Step(r, e)
  {
    assert [e][1..] == [] && Run(Step(r, e), []) == Step(r, e);
  }

  lemma {:induction false} SendsOnly(r: Relay, sends: seq<Event>)
    requires forall e <- sends :: e.Send?
    ensures OnWire(Run(r, sends)) == OnWire(r)
    decreases sends
  {
    if sends != [] {
      var offered := if RS.REQ_BUFFER_SIZE > |r.response| then |r.response| else RS.REQ_BUFFER_SIZE;
      var bytes := if sends[0].count <= offered then sends[0].count else offered;
      Assoc(r.sent, r.response[..bytes], r.response[bytes..]);
      assert r.response[..bytes] + r.response[bytes..] == r.response;
      SendsOnly(Step(r, sends[0]), sends[1..]);
    }
  }

  lemma WireDiffers(fields: seq<Field>, heard: octets, output: octets)
    requires heard <= output && ScanHead(fields, heard).Malformed?
    ensures Wire(fields, heard) == Wire(fields, output) ==> heard == output
  {
    var more := output[|heard|..];
    assert output == heard + more;
    ScanExtends(fields, heard, more);
    hide ScanHead;
  }

  lemma HeardWhole(fields: seq<Field>, output: octets)
    ensures Heard(fields, "", [output]) == output
  {
    assert "" + output == output && [output][1..] == [];
    assert ScanHead(fields, "") == Incomplete(fields, "");
    hide ScanHead;
    assert Heard(fields, output, []) == output;
  }

  /** For all fields, outputs and cuttings: when the whole output has been read, the wire is that of a single
      read if and only if the output has no malformed header line, or nothing is read after the read that
      completes it. */
  lemma CutsExactly(fields: seq<Field>, events: seq<Event>, sends: seq<Event>)
    requires EndOfFile !in events && (forall e <- sends :: e.Send?)
    ensures var output := Concat(Reads(events));
            var scan := ScanHead(fields, output);
            && OnWire(Run(Start(fields), [Receive(output), EndOfFile])) == Wire(fields, output)
            && (OnWire(Run(Start(fields), events + [EndOfFile] + sends)) == Wire(fields, output)
                <==> !(scan.Malformed? && LateOctets(Reads(events), |scan.rest|)))
  {
    var pieces, output := Reads(events), Concat(Reads(events));
    assert "" + output == output;
    assert Reads([Receive(output)]) == [output] by { assert [Receive(output)][1..] == []; }
    assert [Receive(output)] + [EndOfFile] + [] == [Receive(output), EndOfFile];
    hide ScanHead, Run, Wire, Heard, Reads, OnWire;
    EndedWire(fields, events, sends);
    EndedWire(fields, [Receive(output)], []);
    HeardWhole(fields, output);
    HeardExactly(fields, "", pieces);
    if Heard(fields, "", pieces) != output { WireDiffers(fields, Heard(fields, "", pieces), output); }
  }

  lemma ScanMalformed(line: octets, tail: octets)
    requires line != "" && '\r' !in line && Find(line, ": ") == NPOS
    ensures ScanHead([], line + CRLF + tail) == Malformed(tail)
  {
    FindLineEnd(line, tail);
    var s := line + CRLF + tail;
    assert s[..|line|] == line && s[|line| + 2..] == tail;
  }

  lemma RunTwo(r: Relay, a: Event, b: Event)
    ensures Run(r, [a]) == Step(r, a) && Run(r, [a, b]) == Step(Step(r, a), b)
  {
    assert [a][1..] == [] && [a, b][1..] == [b];
    assert Run(Step(r, a), [b]) == Run(Step(Step(r, a), b), []);
  }

  /** A malformed line, and `tail` behind it: read at once, the tail follows the 500 head on the wire; read
      later, it does not. */
  lemma MalformedDependsOnReads(line: octets, tail: octets)
    requires line != "" && '\r' !in line && Find(line, ": ") == NPOS
    ensures Run(Start([]), [Receive(line + CRLF + tail)]).response == SERVER_ERROR.Serialise() + tail
    ensures Run(Start([]), [Receive(line + CRLF), Receive(tail)]).response == SERVER_ERROR.Serialise()
  {
    var s := Start([]);
    ScanMalformed(line, tail);
    ScanMalformed(line, "");
    assert line + CRLF + "" == line + CRLF && "" + (line + CRLF + tail) == line + CRLF + tail && "" + (line + CRLF) == line + CRLF;
    hide ScanHead, Run, Find, Response.Serialise;
    RunTwo(s, Receive(line + CRLF + tail), EndOfFile);
    RunTwo(s, Receive(line + CRLF), Receive(tail));
    assert SERVER_ERROR.Serialise() + "" == SERVER_ERROR.Serialise();
  }
}
