/** A whole upload on one connection: the head, the choice of a transfer (srcs/Request/RequestPOST.cpp:61-94)
    and the body, which begins with what the last read of the head left in the buffer
    (srcs/Client/Client.cpp:251-263). */
module Uploads {
  import opened Octets
  import opened Numbers
  import opened ChunkedCoding
  import opened RequestBody
  import Identity = IdentityCoding
  import ChunkedFile
  import opened FileWrites
  import H = HeadParsing
  import HeadGrammar

  const HEADER_CONTENT_LENGTH: octets := "Content-Length"
  const HEADER_TRANSFER_ENCODING: octets := "Transfer-Encoding"

  /** How the head announces the body. */
  datatype Transfer = Refused(status: int) | Chunked | Declared(length: int)

  function TransferOf(headers: map<octets, octets>, max: int): (t: Transfer)
    ensures t.Declared? ==> 0 < t.length <= max
    ensures t.Chunked? <==> HEADER_CONTENT_LENGTH !in headers && HEADER_TRANSFER_ENCODING in headers
                            && headers[HEADER_TRANSFER_ENCODING] == "chunked"
  {
    if HEADER_CONTENT_LENGTH in headers then
      var n := ToContentLength(headers[HEADER_CONTENT_LENGTH], false);
      if n == CONTENT_LENGTH_INVALID then Refused(400)
      else if n == CONTENT_LENGTH_TOO_LARGE || n > max then Refused(413)
      else if n == 0 then Refused(204)
      else Declared(n)
    else if HEADER_TRANSFER_ENCODING !in headers then Refused(411)
    else if headers[HEADER_TRANSFER_ENCODING] != "chunked" then Refused(415)
    else Chunked
  }

  class RequestPOST {
    var chunked: bool
    var contentLength: int
    var contentTotalLength: int
    var statusCode: int

    constructor ()
      ensures !chunked && contentLength == 0 && contentTotalLength == 0 && statusCode == 0
    {
      chunked, contentLength, contentTotalLength, statusCode := false, 0, 0, 0;
    }

    /** `_checkHeaders`. */
    method CheckHeaders(headers: map<octets, octets>, max: int) returns (r: Progress)
      requires !chunked
      modifies this
      ensures contentTotalLength == old(contentTotalLength)
      ensures match TransferOf(headers, max)
              case Refused(status) => r == REQ_DONE && statusCode == status
              case Chunked => r == REQ_CONTINUE && statusCode == old(statusCode) && chunked && contentLength == -1
              case Declared(n) => r == REQ_CONTINUE && statusCode == old(statusCode) && !chunked && contentLength == n
    {
      hide ToContentLength;
      var value := "";
      if HEADER_CONTENT_LENGTH !in headers {
        if HEADER_TRANSFER_ENCODING !in headers {
          statusCode := 411;
          return REQ_DONE;
        }
        if headers[HEADER_TRANSFER_ENCODING] != "chunked" {
          statusCode := 415;
          return REQ_DONE;
        }
        chunked := true;
      } else {
        value := headers[HEADER_CONTENT_LENGTH];
      }
      if !chunked {
        contentLength := ToContentLength(value, false);
        if contentLength == CONTENT_LENGTH_INVALID {
          statusCode := 400;
          return REQ_DONE;
        }
        if contentLength == CONTENT_LENGTH_TOO_LARGE || contentLength > max {
          statusCode := 413;
          return REQ_DONE;
        }
        if contentLength == 0 {
          statusCode := 204;
          return REQ_DONE;
        }
      } else {
        contentLength := -1;
      }
      r := REQ_CONTINUE;
    }
  }

  // ---- The connection

  /** `file` is what the request has written of the body. */
  datatype Upload = Reading(head: H.Head) | Taking(chunked: bool, d: Decoder, file: seq<Cell>) | Answered(status: int)

  /** The decoder of a body of declared length, before the first call. */
  function DeclaredStart(n: int): Decoder {
    Decoder("", n, 0, "", Running)
  }

  /** The request takes octets, and writes to its file. */
  function Take(u: Upload, piece: octets, max: int): Upload
    requires u.Taking? && Sound(u)
  {
    var d, more := u.d, u.d.Append(piece);
    if u.chunked then
      Taking(true, Feed(d, piece, max), u.file + if d.verdict.Running? then ChunkedFile.Writes(more, max) else [])
    else
      Taking(false, Identity.TakePiece(d, piece), u.file + if d.verdict.Running? then Identity.Writes(more) else [])
  }

  /** The head is complete: the request is built, and takes what the buffer still holds. */
  function Begin(head: H.Head, max: int): Upload {
    match TransferOf(head.headers, max)
    case Refused(status) => Answered(status)
    case Chunked => Take(Taking(true, START, []), head.buffer, max)
    case Declared(n) => Take(Taking(false, DeclaredStart(n), []), head.buffer, max)
  }

  predicate Sound(u: Upload) {
    u.Taking? && u.d.verdict.Running? ==> if u.chunked then u.d.Live() else u.d.length > 0
  }

  /** One read of the socket. */
  function Receive(u: Upload, piece: octets, max: int): (r: Upload)
    requires Sound(u)
    ensures Sound(r)
  {
    match u
    case Reading(h) =>
      var h' := H.Feed(h, piece);
      if h'.phase.Failed? then Answered(h'.phase.status) else if h'.phase.Complete? then Begin(h', max) else Reading(h')
    case Taking(_, _, _) => Take(u, piece, max)
    case Answered(_) => u
  }

  function ReceiveAll(u: Upload, pieces: seq<octets>, max: int): (r: Upload)
    requires Sound(u)
    ensures Sound(r)
    decreases pieces
  {
    if pieces == [] then u else ReceiveAll(Receive(u, pieces[0], max), pieces[1..], max)
  }

  // ---- The read that completes the head

  lemma {:induction false} AfterHead(h: H.Head, pieces: seq<octets>)
    requires h.phase.Complete?
    ensures H.FeedAll(h, pieces) == h.Append(Concat(pieces))
    decreases pieces
  {
    if pieces == [] {
      assert h.buffer + "" == h.buffer;
    } else {
      AfterHead(h.Append(pieces[0]), pieces[1..]);
      Assoc(h.buffer, pieces[0], Concat(pieces[1..]));
    }
  }

  /** The reads up to `k` complete the head `h`, and no fewer do. */
  predicate CompletedBy(pieces: seq<octets>, k: nat, h: H.Head) {
    && 1 <= k <= |pieces|
    && h == H.FeedAll(H.START, pieces[..k]) && h.phase.Complete?
    && forall j :: 0 <= j < k ==> !H.FeedAll(H.START, pieces[..j]).phase.Complete?
  }

  lemma {:induction false} HeadCompletes(pieces: seq<octets>, done: nat, max: int) returns (k: nat, h: H.Head)
    requires done <= |pieces| && H.FeedAll(H.START, pieces).phase.Complete?
    requires forall j :: 0 <= j <= done ==> !H.FeedAll(H.START, pieces[..j]).phase.Complete?
    ensures done < k && CompletedBy(pieces, k, h)
    ensures ReceiveAll(Reading(H.FeedAll(H.START, pieces[..done])), pieces[done..], max) == ReceiveAll(Begin(h, max), pieces[k..], max)
    decreases |pieces| - done
  {
    hide H.Feed, TransferOf, Feed, Identity.TakePiece;
    assert pieces[..|pieces|] == pieces;
    var now := H.FeedAll(H.START, pieces[..done]);
    var next := H.FeedAll(H.START, pieces[..done + 1]);
    FeedOneMore(pieces, done);
    assert pieces[done..][0] == pieces[done] && pieces[done..][1..] == pieces[done + 1..];
    FailedNeverCompletes(pieces, done + 1);
    if next.phase.Complete? {
      k, h := done + 1, next;
    } else {
      k, h := HeadCompletes(pieces, done + 1, max);
    }
  }

  lemma {:induction false} FeedAllSplits(h: H.Head, xs: seq<octets>, ys: seq<octets>)
    ensures H.FeedAll(h, xs + ys) == H.FeedAll(H.FeedAll(h, xs), ys)
    decreases xs
  {
    hide H.Feed;
    if xs == [] {
      assert xs + ys == ys;
    } else {
      assert (xs + ys)[0] == xs[0] && (xs + ys)[1..] == xs[1..] + ys;
      FeedAllSplits(H.Feed(h, xs[0]), xs[1..], ys);
    }
  }

  lemma FeedOneMore(pieces: seq<octets>, k: nat)
    requires k < |pieces|
    ensures H.FeedAll(H.START, pieces[..k + 1]) == H.Feed(H.FeedAll(H.START, pieces[..k]), pieces[k])
  {
    hide H.Feed;
    assert pieces[..k + 1] == pieces[..k] + [pieces[k]];
    FeedAllSplits(H.START, pieces[..k], [pieces[k]]);
  }

  lemma FailedNeverCompletes(pieces: seq<octets>, k: nat)
    requires k <= |pieces| && H.FeedAll(H.START, pieces).phase.Complete?
    ensures !H.FeedAll(H.START, pieces[..k]).phase.Failed?
  {
    assert pieces == pieces[..k] + pieces[k..];
    FeedAllSplits(H.START, pieces[..k], pieces[k..]);
    var h := H.FeedAll(H.START, pieces[..k]);
    if h.phase.Failed? { H.FailedStays(h, pieces[k..]); }
  }

  lemma {:induction false} TakesOn(chunked: bool, d: Decoder, file: seq<Cell>, pieces: seq<octets>, max: int)
    requires Sound(Taking(chunked, d, file))
    ensures chunked ==> ReceiveAll(Taking(chunked, d, file), pieces, max)
                        == Taking(true, FeedAll(d, pieces, max), file + ChunkedFile.WritesAll(d, pieces, max))
    ensures !chunked ==> ReceiveAll(Taking(chunked, d, file), pieces, max)
                         == Taking(false, Identity.TakeAll(d, pieces), file + Identity.WritesAll(d, pieces))
    decreases pieces
  {
    hide Drain, Identity.Take, ChunkedFile.Writes, Identity.Writes;
    if pieces == [] {
      assert file + [] == file;
    } else {
      var u := Taking(chunked, d, file);
      var next := Receive(u, pieces[0], max);
      TakesOn(chunked, next.d, next.file, pieces[1..], max);
      var written := if !d.verdict.Running? then []
                     else if chunked then ChunkedFile.Writes(d.Append(pieces[0]), max) else Identity.Writes(d.Append(pieces[0]));
      Assoc(file, written, if chunked then ChunkedFile.WritesAll(next.d, pieces[1..], max) else Identity.WritesAll(next.d, pieces[1..]));
    }
  }

  lemma CompletedWithin(pieces: seq<octets>, k: nat, h: H.Head)
    requires CompletedBy(pieces, k, h)
    ensures k <= |pieces|
  {}

  /** The pieces in which the request gets its body: the rest of the buffer, and then read by read. */
  function BodyPieces(pieces: seq<octets>, k: nat, h: H.Head): (r: seq<octets>)
    requires k <= |pieces|
    ensures r != []
  {
    [h.buffer] + pieces[k..]
  }

  /** A printed head that arrives in any pieces leaves exactly the body to the request. */
  lemma HeadThenBody(r: HeadGrammar.Request, body: octets, pieces: seq<octets>, max: int) returns (k: nat, h: H.Head)
    requires r.WellFormed() && Concat(pieces) == r.Print() + body && !H.TripsLimit("", pieces)
    ensures CompletedBy(pieces, k, h) && h.headers == HeadGrammar.Fields(r.fields, map[]) && h.verb == r.verb
    ensures Concat(BodyPieces(pieces, k, h)) == body
    ensures |Concat(pieces[..k])| == |r.Print()| + |h.buffer|
    ensures ReceiveAll(Reading(H.START), pieces, max) == ReceiveAll(Begin(h, max), pieces[k..], max)
  {
    assert Sound(Reading(H.START));
    hide H.Feed, Begin, ReceiveAll, HeadGrammar.Request.WellFormed, HeadGrammar.Request.Print, H.TripsLimit, Sound;
    HeadGrammar.RoundTrip(r, body, pieces);
    assert pieces[..0] == [] && pieces[0..] == pieces && !H.START.phase.Complete?;
    k, h := HeadCompletes(pieces, 0, max);
    hide *;
    HeadLeaves(pieces, k, h);
  }

  /** What the completing read leaves in the buffer, and what later reads bring, is the rest of the stream. */
  lemma HeadLeaves(pieces: seq<octets>, k: nat, h: H.Head)
    requires CompletedBy(pieces, k, h) && k <= |pieces|
    ensures var whole := H.FeedAll(H.START, pieces);
            && whole == h.(buffer := Concat(BodyPieces(pieces, k, h)))
            && |Concat(pieces)| == |Concat(pieces[..k])| + |whole.buffer| - |h.buffer|
  {
    hide H.Feed;
    assert pieces == pieces[..k] + pieces[k..];
    FeedAllSplits(H.START, pieces[..k], pieces[k..]);
    AfterHead(h, pieces[k..]);
    ConcatAppend(pieces[..k], pieces[k..]);
    hide H.FeedAll;
    var rest := BodyPieces(pieces, k, h);
    assert rest[0] == h.buffer && rest[1..] == pieces[k..];
  }

  // ---- Whole uploads

  predicate Announces(r: HeadGrammar.Request, max: int, t: Transfer) {
    TransferOf(HeadGrammar.Fields(r.fields, map[]), max) == t
  }

  lemma ChunkedBegins(h: H.Head, pieces: seq<octets>, k: nat, max: int)
    requires k <= |pieces| && TransferOf(h.headers, max).Chunked?
    ensures var rest := BodyPieces(pieces, k, h);
            ReceiveAll(Begin(h, max), pieces[k..], max)
            == Taking(true, FeedAll(START, rest, max), ChunkedFile.WritesAll(START, rest, max))
  {
    hide Drain, TransferOf, ChunkedFile.Writes;
    var rest := BodyPieces(pieces, k, h);
    assert rest[0] == h.buffer && rest[1..] == pieces[k..];
    assert START.Live();
    TakesOn(true, START, [], rest, max);
  }

  lemma DeclaredBegins(h: H.Head, pieces: seq<octets>, k: nat, n: int, max: int)
    requires k <= |pieces| && TransferOf(h.headers, max) == Declared(n)
    ensures var rest := BodyPieces(pieces, k, h);
            ReceiveAll(Begin(h, max), pieces[k..], max)
            == Taking(false, Identity.TakeAll(DeclaredStart(n), rest), Identity.WritesAll(DeclaredStart(n), rest))
  {
    hide TransferOf, Identity.Take, Identity.Writes;
    var rest := BodyPieces(pieces, k, h);
    assert rest[0] == h.buffer && rest[1..] == pieces[k..];
    TakesOn(false, DeclaredStart(n), [], rest, max);
  }

  /** No read ends inside the data of a chunk of the body, which begins at offset `start` of the stream. */
  ghost predicate ReadsOutsideData(chunks: seq<Chunk>, pieces: seq<octets>, start: nat) {
    forall j :: 0 <= j <= |pieces| ==> !ChunkedFile.InsideData(chunks, |Concat(pieces[..j])| - start)
  }

  /** A chunked upload, from its first octet on: however the connection cuts head and body, the request is
      given exactly the body, and the transfer ends in success; the file is the body if and only if no read
      ends inside the data of a chunk. */
  lemma ChunkedUpload(r: HeadGrammar.Request, chunks: seq<Chunk>, tail: octets, pieces: seq<octets>, max: int)
    requires r.WellFormed() && Announces(r, max, Chunked)
    requires AllAccepted(chunks) && |Payload(chunks)| <= max <= INT32_MAX
    requires Concat(pieces) == r.Print() + (Encode(chunks) + tail) && !H.TripsLimit("", pieces)
    ensures var u := ReceiveAll(Reading(H.START), pieces, max);
            && u.Taking? && u.chunked && u.d.verdict.Saved? && u.d.sink == Payload(chunks)
            && (u.file == Cells(Payload(chunks)) <==> ReadsOutsideData(chunks, pieces, |r.Print()|))
  {
    assert TransferOf(HeadGrammar.Fields(r.fields, map[]), max) == Chunked;
    hide *;
    var body := Encode(chunks) + tail;
    var k, h := HeadThenBody(r, body, pieces, max);
    CompletedWithin(pieces, k, h);
    ChunkedBegins(h, pieces, k, max);
    RoundTrip(chunks, tail, BodyPieces(pieces, k, h), max);
    ChunkedFile.FileExactly(chunks, tail, BodyPieces(pieces, k, h), max);
    CutsOfBody(r, body, chunks, pieces, k, h);
  }

  lemma VerbIsMethod(r: HeadGrammar.Request)
    requires r.WellFormed()
    ensures r.verb < H.INVALID_METHOD
  {}

  lemma CutsOfBody(r: HeadGrammar.Request, body: octets, chunks: seq<Chunk>, pieces: seq<octets>, k: nat, h: H.Head)
    requires r.WellFormed() && Concat(pieces) == r.Print() + body && !H.TripsLimit("", pieces)
    requires CompletedBy(pieces, k, h) && |Concat(pieces[..k])| == |r.Print()| + |h.buffer| && k <= |pieces|
    ensures ChunkedFile.CutsOutsideData(chunks, BodyPieces(pieces, k, h), 0) <==> ReadsOutsideData(chunks, pieces, |r.Print()|)
  {
    hide *;
    VerbIsMethod(r);
    var start := |r.Print()|;
    forall j | 0 <= j < k ensures !ChunkedFile.InsideData(chunks, |Concat(pieces[..j])| - start) {
      BeforeBody(r, body, pieces, k, h, j);
      ChunkedFile.NotInside(chunks, |Concat(pieces[..j])| - start);
    }
    CutsBehindHead(chunks, pieces, k, h, start);
  }

  lemma CutsBehindHead(chunks: seq<Chunk>, pieces: seq<octets>, k: nat, h: H.Head, start: nat)
    requires k <= |pieces| && |Concat(pieces[..k])| == start + |h.buffer|
    requires forall j :: 0 <= j < k ==> !ChunkedFile.InsideData(chunks, |Concat(pieces[..j])| - start)
    ensures ChunkedFile.CutsOutsideData(chunks, BodyPieces(pieces, k, h), 0) <==> ReadsOutsideData(chunks, pieces, start)
  {
    var rest := BodyPieces(pieces, k, h);
    assert rest[..0] == [] && Concat(rest[..0]) == "" && |rest| == |pieces| - k + 1;
    hide ChunkedFile.InsideData, BodyPieces, Concat;
    ChunkedFile.NotInside(chunks, 0);
    forall i | 1 <= i <= |rest| ensures |Concat(rest[..i])| == |Concat(pieces[..k + i - 1])| - start {
      BodyCut(pieces, k, h, start, i);
    }
    forall j | k <= j <= |pieces| ensures |Concat(rest[..j - k + 1])| == |Concat(pieces[..j])| - start {
      BodyCut(pieces, k, h, start, j - k + 1);
    }
  }

  /** Reads before the one that completes the head end inside it. */
  lemma BeforeBody(r: HeadGrammar.Request, body: octets, pieces: seq<octets>, k: nat, h: H.Head, j: nat)
    requires r.WellFormed() && Concat(pieces) == r.Print() + body && !H.TripsLimit("", pieces)
    requires CompletedBy(pieces, k, h) && j < k
    ensures |Concat(pieces[..j])| < |r.Print()|
  {
    assert r.verb < H.INVALID_METHOD;
    hide HeadGrammar.Request.Print, HeadGrammar.Request.WellFormed, H.TripsLimit, H.FeedAll;
    if |Concat(pieces[..j])| >= |r.Print()| { CoveredIsComplete(r, body, pieces, j); }
  }

  /** Where the pieces of the body end in the stream. */
  lemma BodyCut(pieces: seq<octets>, k: nat, h: H.Head, start: nat, i: nat)
    requires k <= |pieces| && 1 <= i <= |BodyPieces(pieces, k, h)| && |Concat(pieces[..k])| == start + |h.buffer|
    ensures |Concat(BodyPieces(pieces, k, h)[..i])| == |Concat(pieces[..k + i - 1])| - start
  {
    assert Concat([h.buffer]) == h.buffer;
    assert BodyPieces(pieces, k, h)[..i] == [h.buffer] + pieces[k..k + i - 1];
    ConcatAppend([h.buffer], pieces[k..k + i - 1]);
    ConcatGrows(pieces, k, k + i - 1);
  }

  /** Some read ends exactly where the body ends. */
  ghost predicate EndsARead(pieces: seq<octets>, n: nat) {
    exists j :: 0 <= j <= |pieces| && |Concat(pieces[..j])| == n
  }

  lemma {:induction false} ConcatGrows(pieces: seq<octets>, i: nat, j: nat)
    requires i <= j <= |pieces|
    ensures Concat(pieces[..j]) == Concat(pieces[..i]) + Concat(pieces[i..j])
  {
    assert pieces[..j] == pieces[..i] + pieces[i..j];
    ConcatAppend(pieces[..i], pieces[i..j]);
  }

  /** Reads that cover the head complete it. */
  lemma CoveredIsComplete(r: HeadGrammar.Request, body: octets, pieces: seq<octets>, j: nat)
    requires r.WellFormed() && Concat(pieces) == r.Print() + body && !H.TripsLimit("", pieces)
    requires j <= |pieces| && |Concat(pieces[..j])| >= |r.Print()|
    ensures H.FeedAll(H.START, pieces[..j]).phase.Complete?
  {
    var part, rest := pieces[..j], Concat(pieces[j..]);
    ConcatGrows(pieces, j, |pieces|);
    assert pieces[..|pieces|] == pieces && pieces[j..|pieces|] == pieces[j..];
    var body' := Concat(part)[|r.Print()|..];
    assert Concat(part) == (r.Print() + body)[..|Concat(part)|];
    assert Concat(part) == r.Print() + body';
    hide HeadGrammar.Request.Print, HeadGrammar.Request.WellFormed;
    FirstLineStays(r, part, pieces, body', body);
    HeadGrammar.RoundTrip(r, body', part);
  }

  lemma FirstLineEnd(r: HeadGrammar.Request, body: octets)
    requires r.WellFormed()
    ensures Find("" + (r.Print() + body), CRLF) == |r.Line()|
  {
    var line, fields := r.Line(), HeadGrammar.PrintFields(r.fields);
    assert "" + (r.Print() + body) == line + CRLF + (fields + body);
    HeadGrammar.LineEnds(line, fields + body);
  }

  /** Fewer reads of the same head do not trip the line limit either. */
  lemma FirstLineStays(r: HeadGrammar.Request, part: seq<octets>, pieces: seq<octets>, body: octets, whole: octets)
    requires r.WellFormed() && |part| <= |pieces| && part == pieces[..|part|]
    requires Concat(part) == r.Print() + body && Concat(pieces) == r.Print() + whole && !H.TripsLimit("", pieces)
    ensures !H.TripsLimit("", part)
  {
    FirstLineEnd(r, body);
    FirstLineEnd(r, whole);
    hide HeadGrammar.Request.WellFormed, Find, Concat;
    assert forall k :: 1 <= k <= |part| ==> part[..k] == pieces[..k];
  }

  lemma ReachesExactly(r: HeadGrammar.Request, body: octets, pieces: seq<octets>, k: nat, h: H.Head, n: nat)
    requires r.WellFormed() && Concat(pieces) == r.Print() + body && !H.TripsLimit("", pieces)
    requires CompletedBy(pieces, k, h) && |Concat(pieces[..k])| == |r.Print()| + |h.buffer| && k <= |pieces|
    ensures Identity.Reaches(BodyPieces(pieces, k, h), n) <==> (exists j :: k <= j <= |pieces| && |Concat(pieces[..j])| == |r.Print()| + n)
    ensures EndsARead(pieces, |r.Print()| + n) <==> (exists j :: k <= j <= |pieces| && |Concat(pieces[..j])| == |r.Print()| + n)
  {
    assert r.verb < H.INVALID_METHOD;
    hide HeadGrammar.Request.Print, HeadGrammar.Request.WellFormed, H.TripsLimit, Concat, CompletedBy;
    var rest, start := BodyPieces(pieces, k, h), |r.Print()|;
    forall i | 1 <= i <= |rest| ensures |Concat(rest[..i])| == |Concat(pieces[..k + i - 1])| - start {
      BodyCut(pieces, k, h, start, i);
    }
    forall j | 0 <= j < k ensures |Concat(pieces[..j])| < start { BeforeBody(r, body, pieces, k, h, j); }
    if j :| k <= j <= |pieces| && |Concat(pieces[..j])| == start + n {
      assert |Concat(rest[..j - k + 1])| == n;
    }
  }

  /** Some read ends inside the body, or just before it. */
  ghost predicate EndsWithin(pieces: seq<octets>, start: nat, n: nat) {
    exists j :: 0 <= j <= |pieces| && start <= |Concat(pieces[..j])| < start + n
  }

  lemma WithinExactly(r: HeadGrammar.Request, body: octets, pieces: seq<octets>, k: nat, h: H.Head, n: nat)
    requires r.WellFormed() && Concat(pieces) == r.Print() + body && !H.TripsLimit("", pieces)
    requires CompletedBy(pieces, k, h) && |Concat(pieces[..k])| == |r.Print()| + |h.buffer| && k <= |pieces|
    ensures EndsWithin(pieces, |r.Print()|, n) <==> |h.buffer| < n
  {
    assert r.verb < H.INVALID_METHOD;
    hide HeadGrammar.Request.Print, HeadGrammar.Request.WellFormed, H.TripsLimit, Concat, CompletedBy;
    forall j | 0 <= j < k ensures |Concat(pieces[..j])| < |r.Print()| { BeforeBody(r, body, pieces, k, h, j); }
    forall j | k <= j <= |pieces| ensures |Concat(pieces[..j])| >= |Concat(pieces[..k])| { ConcatGrows(pieces, k, j); }
  }

  /** An upload of declared length, whatever follows it: it succeeds exactly when some read ends where the
      body ends, and has then been given exactly the body; the file is what it has been given if and only if
      no read ends within the body. */
  lemma DeclaredUploadExactly(r: HeadGrammar.Request, body: octets, tail: octets, pieces: seq<octets>, max: int)
    requires r.WellFormed() && body != "" && Announces(r, max, Declared(|body|))
    requires Concat(pieces) == r.Print() + (body + tail) && !H.TripsLimit("", pieces)
    ensures var u := ReceiveAll(Reading(H.START), pieces, max);
            && u.Taking? && !u.chunked
            && (u.d.verdict.Saved? <==> EndsARead(pieces, |r.Print()| + |body|))
            && (u.d.verdict.Saved? ==> u.d.sink == body)
            && (!u.d.verdict.Saved? ==> u.d.verdict.BadRequest?)
            && (u.file == Cells(u.d.sink) <==> !EndsWithin(pieces, |r.Print()|, |body|))
  {
    assert TransferOf(HeadGrammar.Fields(r.fields, map[]), max) == Declared(|body|);
    assert Identity.Conserved(DeclaredStart(|body|), |body|);
    hide *;
    var n := |body|;
    var k, h := HeadThenBody(r, body + tail, pieces, max);
    CompletedWithin(pieces, k, h);
    DeclaredBegins(h, pieces, k, n, max);
    ReachesExactly(r, body + tail, pieces, k, h, n);
    WithinExactly(r, body + tail, pieces, k, h, n);
    var rest := BodyPieces(pieces, k, h);
    assert rest != [] && rest[0] == h.buffer by { FirstBodyPiece(pieces, k, h); }
    TakesDeclared(body, tail, rest);
    Identity.FileExactly(DeclaredStart(n), rest, n);
  }

  lemma FirstBodyPiece(pieces: seq<octets>, k: nat, h: H.Head)
    requires k <= |pieces|
    ensures BodyPieces(pieces, k, h) != [] && BodyPieces(pieces, k, h)[0] == h.buffer
  {}

  lemma TakesDeclared(body: octets, tail: octets, pieces: seq<octets>)
    requires body != "" && Concat(pieces) == body + tail
    ensures var x := Identity.TakeAll(DeclaredStart(|body|), pieces);
            && (x.verdict.Saved? <==> Identity.Reaches(pieces, |body|))
            && (x.verdict.Saved? ==> x.sink == body)
            && (!x.verdict.Saved? ==> x.verdict.BadRequest?)
  {
    var d := DeclaredStart(|body|);
    hide Identity.TakeAll, Identity.Reaches, Concat;
    Identity.SucceedsExactly(d, pieces, |body|);
    Identity.Conservation(d, pieces, |body|);
    assert (body + tail)[..|body|] == body;
    assert "" + body == body;
  }

  /** Why an announcement is refused, and what is accepted: 411 without either field; 415 for another coding; 400
      for what is no length, 413 for one beyond the maximum, 204 for zero. */
  lemma AnnouncementExactly(headers: map<octets, octets>, max: int)
    ensures var t, declared := TransferOf(headers, max), "Content-Length" in headers;
            && (t == Refused(411) <==> !declared && "Transfer-Encoding" !in headers)
            && (t == Refused(415) <==>
                !declared && "Transfer-Encoding" in headers && headers["Transfer-Encoding"] != "chunked")
            && (t == Chunked <==> !declared && "Transfer-Encoding" in headers && headers["Transfer-Encoding"] == "chunked")
            && (declared ==>
                  var value := headers["Content-Length"];
                  var n := ToContentLength(value, false);
                  && (t == Refused(400) <==> !IsLength(CString(value), Decimal))
                  && (t == Refused(413) <==> IsLength(CString(value), Decimal) && (n == CONTENT_LENGTH_TOO_LARGE || n > max))
                  && (t == Refused(204) <==> n == 0 <= max)
                  && (t == Declared(n) <==> 0 < n <= max)
                  && (t.Refused? || t == Declared(n)))
  {
    if "Content-Length" in headers {
      LengthExactly(headers["Content-Length"], false);
      hide IsLength, CString, ToContentLength;
    }
  }

  /** The header field that a client prints for a length within the maximum announces that length. */
  lemma PrintedLengthAnnounces(headers: map<octets, octets>, n: nat, max: int)
    requires 0 < n <= max <= INT32_MAX
    requires HEADER_CONTENT_LENGTH in headers && headers[HEADER_CONTENT_LENGTH] == Numeral(n, Decimal)
    ensures TransferOf(headers, max) == Declared(n)
  {
    NumeralValue(n, Decimal);
    NumeralLength(Numeral(n, Decimal), false);
    hide ToContentLength;
  }
}
