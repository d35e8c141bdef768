/** Why the chunked decoder refuses a stream (srcs/Request/ARequest-body.cpp:104-175), told by the stream alone. */
module ChunkedRefusals {
  import opened Octets
  import opened Numbers
  import opened ChunkedCoding
  import opened ChunkedLimits

  /** `rest` begins with a size line, worth `n`. */
  predicate SizeIs(rest: octets, n: int) {
    Find(rest, CRLF) > 0 && ToContentLength(rest[..Find(rest, CRLF)], true) == n
  }

  /** `rest` is a chunk that may be taken, without its CRLF, and `tail`. */
  predicate Taken(c: Chunk, tail: octets, rest: octets, total: int, max: int) {
    rest == c.size + CRLF + (c.data + tail) && c.Accepted() && !Refused(|c.data|, total, max)
  }

  /** Behind the chunks that were accepted stands what is refused: a chunk that is too large; an empty size line, one
      that is no length, or a zero that is not spelt with zero first; or something else than CRLF behind the data. */
  ghost predicate Refuses(v: Verdict, rest: octets, total: int, max: int) {
    match v
    case TooLarge => SizeIs(rest, CONTENT_LENGTH_TOO_LARGE) || exists n :: n > 0 && SizeIs(rest, n) && Refused(n, total, max)
    case BadRequest =>
      || Find(rest, CRLF) == 0
      || SizeIs(rest, CONTENT_LENGTH_INVALID)
      || (SizeIs(rest, 0) && rest[0] != '0')
      || exists c, tail :: Taken(c, tail, rest, total, max) && |tail| == 1 && tail != "\r"
    case BadDelimiter => exists c, tail :: Taken(c, tail, rest, total, max) && |tail| >= 2 && tail[..2] != CRLF
    case _ => false
  }

  ghost predicate RefusedBehind(v: Verdict, stream: octets, chunks: seq<Chunk>, rest: octets, total: int, max: int) {
    && AllAccepted(chunks) && Fits(chunks, total, max)
    && stream == Body(chunks) + rest && Refuses(v, rest, Counted(chunks, total), max)
  }

  // ---- What stands first

  lemma LineRefused(d: Decoder, v: Verdict, max: int)
    requires d.Live() && d.length == -1 && !v.BadDelimiter?
    ensures SizeLine(d, max).Stop? && SizeLine(d, max).d.verdict == v && !v.Running? && !v.Saved? <==>
            match v
            case TooLarge =>
              SizeIs(d.buffer, CONTENT_LENGTH_TOO_LARGE) || exists n :: n > 0 && SizeIs(d.buffer, n) && Refused(n, d.total, max)
            case BadRequest =>
              Find(d.buffer, CRLF) == 0 || SizeIs(d.buffer, CONTENT_LENGTH_INVALID) || (SizeIs(d.buffer, 0) && d.buffer[0] != '0')
            case _ => false
  {
    hide Find, ToContentLength, Refused, Agrees, MayTerminate;
    if d.buffer != "" { ZeroLine(d.buffer); }
    TooLargeIs(d.total, max);
    var pos := Find(d.buffer, CRLF);
    if pos > 0 {
      var n := ToContentLength(d.buffer[..pos], true);
      assert SizeIs(d.buffer, n) && forall m :: SizeIs(d.buffer, m) ==> m == n;
    }
  }

  lemma TooLargeIs(total: int, max: int)
    ensures Refused(CONTENT_LENGTH_TOO_LARGE, total, max)
  {}

  lemma LineNeverDelimits(d: Decoder, max: int)
    requires d.Live() && d.length == -1
    ensures SizeLine(d, max).Stop? ==> !SizeLine(d, max).d.verdict.BadDelimiter?
  {
    hide Find, ToContentLength, Refused, Agrees, MayTerminate;
  }

  /** What a call makes of a chunk and the octets behind its data. */
  lemma ChunkRefused(d: Decoder, c: Chunk, tail: octets, max: int)
    requires d.Live() && d.length == -1 && Taken(c, tail, d.buffer, d.total, max)
    ensures |tail| == 1 && tail != "\r" ==> Drain(d, max).verdict == BadRequest
    ensures |tail| >= 2 && tail[..2] != CRLF ==> Drain(d, max).verdict == BadDelimiter
  {
    hide SizeLine, Find, ToContentLength, Refused, Int32, Chunk.Accepted;
    assert c.data != "" && d.buffer != "" by { NotEmptyChunk(c); }
    ReadSize(c, c.data + tail, d.total, d.sink, max);
    assert d == Due(c.size + CRLF + (c.data + tail), d.total, d.sink);
    var y := SizeLine(d, max).d;
    DrainPass(d, y, max);
    TakeDropAppend(c.data, tail, |c.data|);
    assert c.data[|c.data|..] + tail == tail;
  }

  lemma NotEmptyChunk(c: Chunk)
    requires c.Accepted()
    ensures c.data != ""
  {}

  /** A call passes over the chunks that it accepts. */
  lemma {:induction false} DrainBehind(chunks: seq<Chunk>, rest: octets, total: int, sink: octets, max: int)
    requires AllAccepted(chunks) && Fits(chunks, total, max) && rest != ""
    ensures Drain(Due(Body(chunks) + rest, total, sink), max) == Drain(Due(rest, Counted(chunks, total), sink + Payload(chunks)), max)
    decreases chunks
  {
    hide Drain, Chunk.Accepted, Refused, Int32;
    if chunks == [] {
      assert Body(chunks) + rest == rest && sink + Payload(chunks) == sink;
    } else {
      var c, cs := chunks[0], chunks[1..];
      assert AllAccepted(cs) && c.Accepted();
      hide Body, AllAccepted;
      DecodeFirst(chunks, rest, total, sink, max);
      DrainBehind(cs, rest, Int32(total + |c.data|), sink + c.data, max);
      Assoc(sink, c.data, Payload(cs));
    }
  }

  lemma RefusesSomething(v: Verdict, rest: octets, total: int, max: int)
    requires Refuses(v, rest, total, max)
    ensures rest != "" && !v.Running? && !v.Saved?
  {
    hide ToContentLength, Refused;
  }

  lemma DrainRefused(v: Verdict, rest: octets, total: int, sink: octets, max: int)
    requires Refuses(v, rest, total, max)
    ensures Drain(Due(rest, total, sink), max).verdict == v
  {
    RefusesSomething(v, rest, total, max);
    var d := Due(rest, total, sink);
    if c, tail :| Taken(c, tail, rest, total, max) && v.BadRequest? && |tail| == 1 && tail != "\r" {
      hide Drain, Taken;
      ChunkRefused(d, c, tail, max);
    } else if c, tail :| Taken(c, tail, rest, total, max) && v.BadDelimiter? && |tail| >= 2 && tail[..2] != CRLF {
      hide Drain, Taken;
      ChunkRefused(d, c, tail, max);
    } else {
      hide Taken, SizeIs, Refused, Find, ToContentLength, SizeLine;
      LineRefused(d, v, max);
      DrainStops(d, max);
    }
  }

  lemma DrainStops(d: Decoder, max: int)
    requires d.Live() && d.length == -1 && d.buffer != "" && SizeLine(d, max).Stop?
    ensures Drain(d, max) == SizeLine(d, max).d
  {
    hide SizeLine;
  }

  /** What a call that went beyond the size line came to: a bad end of the chunk, or what follows it. */
  lemma BehindSize(d: Decoder, y: Decoder, v: Verdict, max: int) returns (c: Chunk, tail: octets, b: octets, here: bool)
    requires d.Live() && d.length == -1 && SizeLine(d, max) == Go(y)
    requires Drain(d, max).verdict == v && !v.Running? && !v.Saved?
    ensures Taken(c, tail, d.buffer, d.total, max)
    ensures here ==> (v.BadRequest? && |tail| == 1 && tail != "\r") || (v.BadDelimiter? && |tail| >= 2 && tail[..2] != CRLF)
    ensures !here ==>
              && tail == CRLF + b && |b| < |d.buffer|
              && Drain(d, max) == Drain(Due(b, Int32(d.total + |c.data|), d.sink + c.data), max)
  {
    hide *;
    var size := AcceptedSize(d, y, max);
    SizeFits(d, y, max);
    DrainPass(d, y, max);
    c, tail, b, here := SplitData(y, size, v, max);
    TakenIs(d, y, c, tail, max);
  }

  lemma TakenIs(d: Decoder, y: Decoder, c: Chunk, tail: octets, max: int)
    requires d.buffer == c.size + CRLF + y.buffer && y.buffer == c.data + tail && |c.data| == y.length
    requires c.Accepted() && !Refused(y.length, d.total, max)
    ensures Taken(c, tail, d.buffer, d.total, max) && |y.buffer| < |d.buffer|
  {
    hide Chunk.Accepted, Refused;
  }

  lemma SplitData(y: Decoder, size: octets, v: Verdict, max: int) returns (c: Chunk, tail: octets, b: octets, here: bool)
    requires y.Live() && y.length > 0 && Drain(ChunkData(y), max).verdict == v && !v.Running? && !v.Saved?
    ensures c.size == size && |c.data| == y.length && y.buffer == c.data + tail
    ensures here ==> (v.BadRequest? && |tail| == 1 && tail != "\r") || (v.BadDelimiter? && |tail| >= 2 && tail[..2] != CRLF)
    ensures !here ==>
              && tail == CRLF + b && |b| < |y.buffer|
              && Drain(ChunkData(y), max) == Drain(Due(b, y.total, y.sink + c.data), max)
  {
    hide SizeLine;
    var z := ChunkData(y);
    assert z.buffer != "" && |y.buffer| > y.length;
    c, tail := Chunk(size, y.buffer[..y.length]), y.buffer[y.length..];
    here := EndChunk(z).Stop?;
    b := if here then "" else tail[2..];
    if here {
      assert |tail| == 1 ==> (tail[0] == '\r' <==> tail == "\r");
    } else {
      assert tail == tail[..2] + b;
      var x := EndChunk(z).d;
      assert x == Due(b, y.total, y.sink + c.data);
      if b == "" { WaitEmpty(x, max); } else { DrainDue(z, x, max); }
    }
  }

  lemma DrainDue(z: Decoder, x: Decoder, max: int)
    requires z.Live() && z.buffer != "" && EndChunk(z) == Go(x) && x.buffer != "" && x.length == -1
    ensures Drain(z, max) == Drain(x, max)
  {
    hide SizeLine;
  }

  lemma {:induction false} RefusalRead(d: Decoder, v: Verdict, max: int) returns (chunks: seq<Chunk>, rest: octets)
    requires d.Live() && d.length == -1 && Drain(d, max).verdict == v && !v.Running? && !v.Saved?
    ensures RefusedBehind(v, d.buffer, chunks, rest, d.total, max)
    decreases |d.buffer|
  {
    hide *;
    EndedHasRead(d, v, max);
    if SizeLine(d, max).Stop? {
      chunks, rest := [], d.buffer;
      RefusedByLine(d, v, max);
      RefusedAtOnce(v, rest, d.total, max);
    } else {
      var y := SizeLine(d, max).d;
      var c, tail, b, here := BehindSize(d, y, v, max);
      if here {
        chunks, rest := [], d.buffer;
        RefusesData(v, c, tail, rest, d.total, max);
        RefusedAtOnce(v, rest, d.total, max);
      } else {
        var next := DueAfter(d, c, b);
        var cs;
        cs, rest := RefusalRead(next, v, max);
        chunks := [c] + cs;
        OneMoreTaken(v, d.buffer, c, b, cs, rest, d.total, max);
      }
    }
  }

  lemma EndedHasRead(d: Decoder, v: Verdict, max: int)
    requires d.Live() && Drain(d, max).verdict == v && !v.Running?
    ensures d.buffer != ""
  {
    hide Pass;
  }

  lemma DueAfter(d: Decoder, c: Chunk, b: octets) returns (next: Decoder)
    ensures next == Due(b, Int32(d.total + |c.data|), d.sink + c.data)
    ensures next.Live() && next.length == -1 && next.buffer == b && next.total == Int32(d.total + |c.data|)
  {
    next := Due(b, Int32(d.total + |c.data|), d.sink + c.data);
  }

  lemma RefusedByLine(d: Decoder, v: Verdict, max: int)
    requires d.Live() && d.length == -1 && d.buffer != "" && SizeLine(d, max).Stop?
    requires Drain(d, max).verdict == v && !v.Running? && !v.Saved?
    ensures Refuses(v, d.buffer, d.total, max)
  {
    hide *;
    DrainStops(d, max);
    LineNeverDelimits(d, max);
    LineRefused(d, v, max);
    RefusesLine(v, d.buffer, d.total, max);
  }

  lemma RefusedAtOnce(v: Verdict, stream: octets, total: int, max: int)
    requires Refuses(v, stream, total, max)
    ensures RefusedBehind(v, stream, [], stream, total, max)
  {
    hide Refuses;
    assert Body([]) + stream == stream;
  }

  lemma RefusesLine(v: Verdict, rest: octets, total: int, max: int)
    requires match v
             case TooLarge =>
               SizeIs(rest, CONTENT_LENGTH_TOO_LARGE) || exists n :: n > 0 && SizeIs(rest, n) && Refused(n, total, max)
             case BadRequest =>
               Find(rest, CRLF) == 0 || SizeIs(rest, CONTENT_LENGTH_INVALID) || (SizeIs(rest, 0) && rest[0] != '0')
             case _ => false
    ensures Refuses(v, rest, total, max)
  {
    hide SizeIs, Refused, Find;
  }

  lemma RefusesData(v: Verdict, c: Chunk, tail: octets, rest: octets, total: int, max: int)
    requires Taken(c, tail, rest, total, max)
    requires (v.BadRequest? && |tail| == 1 && tail != "\r") || (v.BadDelimiter? && |tail| >= 2 && tail[..2] != CRLF)
    ensures Refuses(v, rest, total, max)
  {
    hide Taken, SizeIs, Refused, Find;
  }

  lemma OneMoreTaken(v: Verdict, stream: octets, c: Chunk, b: octets, cs: seq<Chunk>, rest: octets, total: int, max: int)
    requires Taken(c, CRLF + b, stream, total, max)
    requires RefusedBehind(v, b, cs, rest, Int32(total + |c.data|), max)
    ensures RefusedBehind(v, stream, [c] + cs, rest, total, max)
  {
    hide Chunk.Accepted, Refused, Int32, Refuses;
    var chunks := [c] + cs;
    assert chunks[0] == c && chunks[1..] == cs;
    assert Body(chunks) + rest == c.size + CRLF + c.data + CRLF + Body(cs) + rest;
    assert c.size + CRLF + (c.data + (CRLF + (Body(cs) + rest))) == Body(chunks) + rest;
  }

  /** A stream in one piece is refused exactly when accepted chunks, or none, are followed by what is refused: with
      413 for a chunk that is too large, and with 400 for everything else. */
  lemma RefusalExactly(stream: octets, v: Verdict, max: int)
    requires v.TooLarge? || v.BadRequest? || v.BadDelimiter?
    ensures Feed(START, stream, max).verdict == v <==>
            exists chunks, rest :: RefusedBehind(v, stream, chunks, rest, 0, max)
    ensures StatusOf(v, false) == StatusOf(v, true) == if v.TooLarge? then 413 else 400
    ensures StatusOf(Saved(""), false) == 201 && StatusOf(Saved(""), true) == 200
  {
    FeedStart(stream, max);
    hide Drain, Feed, Body, AllAccepted, Fits, Refuses;
    if Feed(START, stream, max).verdict == v {
      var chunks, rest := RefusalRead(Due(stream, 0, ""), v, max);
    }
    if chunks, rest :| RefusedBehind(v, stream, chunks, rest, 0, max) {
      RefusesSomething(v, rest, Counted(chunks, 0), max);
      DrainBehind(chunks, rest, 0, "", max);
      DrainRefused(v, rest, Counted(chunks, 0), "" + Payload(chunks), max);
    }
  }
}
