/** The chunked transfer coding (section 7.1 of RFC 9112) as srcs/Request/ARequest-body.cpp decodes it:
    the value of the decoder between two calls, and what one call makes of a buffer. */
module ChunkedCoding {
  import opened Octets
  import opened Numbers

  const CHUNK_TERMINATOR: octets := "0\r\n\r\n"

  /** How a transfer stands. `Saved` keeps the octets that the buffer held when it was cleared. */
  datatype Verdict = Running | Saved(dropped: octets) | BadDelimiter | BadRequest | TooLarge

  // 0 stands for STATUS_NONE; a saved upload answers 201, a saved CGI body 200
  function StatusOf(v: Verdict, cgi: bool): int {
    match v
    case Running => 0
    case Saved(_) => if cgi then 200 else 201
    case BadDelimiter => 400
    case BadRequest => 400
    case TooLarge => 413
  }

  /** The decoder between two calls. `length` is `_contentLength`: -1 when a size line is due, 0 when
      the CRLF that ends a chunk is due, and otherwise what is left of the current chunk. */
  datatype Decoder = Decoder(buffer: octets, length: int, total: int, sink: octets, verdict: Verdict) {
    predicate Live() {
      verdict.Running? && length >= -1
    }

    function Append(more: octets): (d: Decoder) {
      this.(buffer := buffer + more)
    }
  }

  const START := Decoder("", -1, 0, "", Running)

  /** A stage of one loop pass either returns from the call or goes on. */
  datatype Next = Stop(d: Decoder) | Go(d: Decoder)

  function EndChunk(d: Decoder): (r: Next)
    requires d.Live() && d.buffer != ""
    ensures r.Go? ==> r.d.Live() && r.d.length != 0 && |r.d.buffer| <= |d.buffer|
  {
    if d.length != 0 then Go(d)
    else if |d.buffer| >= 2 then
      if d.buffer[..2] == CRLF then Go(d.(buffer := d.buffer[2..], length := -1))
      else Stop(d.(verdict := BadDelimiter))
    else if d.buffer[0] != '\r' then Stop(d.(verdict := BadRequest))
    else Stop(d)
  }

  /** One of the four shorter terminators agrees with the buffer. */
  predicate MayTerminate(buffer: octets) {
    exists i :: 1 <= i <= 4 && Agrees(buffer, CHUNK_TERMINATOR[..i])
  }

  /** The 413 test, on a total that has wrapped around if int32_t cannot hold it. */
  predicate Refused(n: int, total: int, max: int) {
    n == CONTENT_LENGTH_TOO_LARGE || n > max || Int32(total + n) > max
  }

  /** The size line ends at `pos` and `n` is what `sToContentLength` makes of it. */
  function Sized(d: Decoder, pos: nat, n: int, max: int): Next
    requires d.Live() && pos + 2 <= |d.buffer|
  {
    if n == CONTENT_LENGTH_INVALID then Stop(d.(length := n, verdict := BadRequest))
    else if n == 0 then
      if Agrees(d.buffer, CHUNK_TERMINATOR) then Stop(d.(buffer := "", length := 0, verdict := Saved(d.buffer)))
      else if MayTerminate(d.buffer) then Stop(d)
      else Stop(d.(length := 0, verdict := BadRequest))
    else
      var d' := d.(buffer := d.buffer[pos + 2..], length := n, total := Int32(d.total + n));
      if Refused(n, d.total, max) then Stop(d'.(verdict := TooLarge)) else Go(d')
  }

  function SizeLine(d: Decoder, max: int): (r: Next)
    requires d.Live() && d.length != 0
    ensures r.Go? ==> r.d.Live() && r.d.length > 0 && (r.d == d || |r.d.buffer| < |d.buffer|)
    ensures r.Stop? ==> d.length == -1
  {
    if d.length != -1 then Go(d)
    else
      var pos := Find(d.buffer, CRLF);
      if pos == NPOS then Stop(d)
      else if pos == 0 then Stop(d.(verdict := BadRequest))
      else Sized(d, pos, ToContentLength(d.buffer[..pos], true), max)
  }

  function ChunkData(d: Decoder): (r: Decoder)
    requires d.Live() && d.length > 0
    ensures r.Live() && |r.buffer| <= |d.buffer| && (d.buffer != "" ==> |r.buffer| < |d.buffer|)
  {
    if |d.buffer| > d.length then
      d.(buffer := d.buffer[d.length..], length := 0, sink := d.sink + d.buffer[..d.length])
    else
      d.(buffer := "", length := d.length - |d.buffer|, sink := d.sink + d.buffer)
  }

  /** One pass of the loop over a buffer that is not empty. */
  function Pass(d: Decoder, max: int): (r: Next)
    requires d.Live() && d.buffer != ""
    ensures r.Go? ==> r.d.Live() && |r.d.buffer| < |d.buffer|
  {
    match EndChunk(d)
    case Stop(x) => Stop(x)
    case Go(x) =>
      match SizeLine(x, max)
      case Stop(y) => Stop(y)
      case Go(y) => Go(ChunkData(y))
  }

  /** One call of `_readChunked`: passes until one of them returns or the buffer is empty. */
  function Drain(d: Decoder, max: int): (r: Decoder)
    requires d.Live()
    ensures r.verdict.Running? ==> r.Live()
    decreases |d.buffer|
  {
    if d.buffer == "" then d
    else match Pass(d, max)
      case Stop(x) => x
      case Go(x) => Drain(x, max)
  }

  /** One read of the socket followed by one call; a terminal verdict ends the calls, not the reads. */
  function Feed(d: Decoder, piece: octets, max: int): (r: Decoder)
    requires d.verdict.Running? ==> d.Live()
    ensures r.verdict.Running? ==> r.Live()
  {
    if d.verdict.Running? then Drain(d.Append(piece), max) else d.Append(piece)
  }

  function FeedAll(d: Decoder, pieces: seq<octets>, max: int): (r: Decoder)
    requires d.verdict.Running? ==> d.Live()
    ensures r.verdict.Running? ==> r.Live()
    decreases pieces
  {
    if pieces == [] then d else FeedAll(Feed(d, pieces[0], max), pieces[1..], max)
  }

  /** Same octets delivered, same status, and, while the transfer runs, the same state. */
  predicate Same(x: Decoder, y: Decoder) {
    && x.sink == y.sink
    && StatusOf(x.verdict, false) == StatusOf(y.verdict, false)
    && (x.verdict.Running? ==> x == y)
  }

  // ---- Growing the buffer of a single call

  /** A buffer that agrees with the terminator, or with one of its prefixes, starts with `0`. */
  lemma ZeroLine(s: octets)
    requires s != ""
    ensures MayTerminate(s) <==> s[0] == '0'
    ensures Agrees(s, CHUNK_TERMINATOR) ==> s[0] == '0'
  {
    assert CHUNK_TERMINATOR[..1] == "0";
    if s[0] == '0' {
      assert s[..1] == "0";
      assert Agrees(s, CHUNK_TERMINATOR[..1]);
    }
    if Agrees(s, CHUNK_TERMINATOR) {
      var n := if |s| <= 5 then |s| else 5;
      assert s[..n][0] == CHUNK_TERMINATOR[..n][0];
    }
    forall i | 1 <= i <= 4 && Agrees(s, CHUNK_TERMINATOR[..i]) ensures s[0] == '0' {
      var n := if |s| <= i then |s| else i;
      assert s[..n][0] == CHUNK_TERMINATOR[..i][..n][0];
    }
  }

  lemma EndChunkExtends(d: Decoder, b: octets)
    requires d.Live() && d.buffer != ""
    ensures EndChunk(d).Go? ==> EndChunk(d.Append(b)) == Go(EndChunk(d).d.Append(b))
    ensures EndChunk(d).Stop? && EndChunk(d).d != d ==>
              EndChunk(d.Append(b)).Stop? && Same(EndChunk(d).d, EndChunk(d.Append(b)).d)
              && !EndChunk(d).d.verdict.Saved?
  {
    if |d.buffer| >= 2 {
      assert (d.buffer + b)[..2] == d.buffer[..2];
      assert (d.buffer + b)[2..] == d.buffer[2..] + b;
    } else if b != "" {
      assert (d.buffer + b)[..2][0] == d.buffer[0];
    }
  }

  lemma SizedExtends(d: Decoder, pos: nat, n: int, b: octets, max: int)
    requires d.Live() && d.length == -1 && pos + 2 <= |d.buffer|
    ensures StopsAlike(Sized(d, pos, n, max), d, Sized(d.Append(b), pos, n, max), b)
  {
    assert (d.buffer + b)[pos + 2..] == d.buffer[pos + 2..] + b;
    ZeroLine(d.buffer);
    ZeroLine(d.buffer + b);
    if Agrees(d.buffer + b, CHUNK_TERMINATOR) { AgreesPrefix(d.buffer, b, CHUNK_TERMINATOR); }
  }

  /** How a size line seen in `d.buffer` (answer `r`) and in `d.buffer + b` (answer `s`) compare. */
  predicate StopsAlike(r: Next, d: Decoder, s: Next, b: octets) {
    if r.Go? then s == Go(r.d.Append(b))
    else if r.d == d then true
    else if r.d.verdict.Saved? then
      && s.Stop?
      && r.d == Decoder("", 0, d.total, d.sink, Saved(d.buffer))
      && s.d == (if Agrees(d.buffer + b, CHUNK_TERMINATOR)
                 then Decoder("", 0, d.total, d.sink, Saved(d.buffer + b)) else d.Append(b))
    else s.Stop? && Same(r.d, s.d) && !r.d.verdict.Running?
  }

  lemma SizeLineExtends(d: Decoder, b: octets, max: int)
    requires d.Live() && d.length != 0
    ensures StopsAlike(SizeLine(d, max), d, SizeLine(d.Append(b), max), b)
  {
    var pos := Find(d.buffer, CRLF);
    if d.length == -1 && pos != NPOS {
      FindExtends(d.buffer, CRLF, b);
      if pos > 0 {
        assert (d.buffer + b)[..pos] == d.buffer[..pos];
        SizedExtends(d, pos, ToContentLength(d.buffer[..pos], true), b, max);
      }
    }
  }

  lemma AgreesPrefix(a: octets, b: octets, p: octets)
    requires Agrees(a + b, p)
    ensures Agrees(a, p)
  {
    var n := if |a| <= |p| then |a| else |p|;
    var m := if |a + b| <= |p| then |a + b| else |p|;
    assert a[..n] == (a + b)[..m][..n];
    assert p[..n] == p[..m][..n];
  }

  /** The rest of a chunk is taken alike in one piece or in two. */
  lemma ChunkDataExtends(y: Decoder, b: octets)
    requires y.Live() && y.length > 0 && b != ""
    ensures ChunkData(y.Append(b)) == if |y.buffer| >= y.length then ChunkData(y).Append(b)
                                      else ChunkData(ChunkData(y).Append(b))
  {
    if |y.buffer| >= y.length {
      FullChunkExtends(y, b);
    } else {
      PartChunkExtends(y, b);
    }
  }

  lemma FullChunkExtends(y: Decoder, b: octets)
    requires y.Live() && 0 < y.length <= |y.buffer| && b != ""
    ensures ChunkData(y.Append(b)) == ChunkData(y).Append(b)
  {
    var s, n := y.buffer, y.length;
    TakeDropAppend(s, b, n);
    assert |s| == n ==> s[..n] == s && s[n..] + b == "" + b;
  }

  lemma PartChunkExtends(y: Decoder, b: octets)
    requires y.Live() && |y.buffer| < y.length && b != ""
    ensures ChunkData(y.Append(b)) == ChunkData(ChunkData(y).Append(b))
  {
    var s, n := y.buffer, y.length;
    assert "" + b == b;
    assert ChunkData(y).Append(b) == y.(buffer := b, length := n - |s|, sink := y.sink + s);
    if |s + b| > n {
      TakeDropAppend(s, b, n);
      Assoc(y.sink, s, b[..n - |s|]);
    } else {
      Assoc(y.sink, s, b);
    }
  }

  lemma PassData(z: Decoder, max: int)
    requires z.Live() && z.length > 0 && z.buffer != ""
    ensures Pass(z, max) == Go(ChunkData(z)) && Drain(z, max) == Drain(ChunkData(z), max)
  {}

  /** Octets that arrive after a call can as well be there before it, except that they may contradict
      a terminator that the call had taken for complete. */
  ghost predicate Extends(d: Decoder, b: octets, max: int)
    requires d.Live()
  {
    var x, y := Drain(d, max), Drain(d.Append(b), max);
    match x.verdict
    case Running => Drain(x.Append(b), max) == y
    case Saved(dropped) =>
      if Agrees(dropped + b, CHUNK_TERMINATOR) then Same(x, y) && y.verdict == Saved(dropped + b)
      else y == x.(buffer := dropped + b, length := -1, verdict := Running)
    case _ => Same(x, y)
  }

  lemma {:induction false} DrainExtends(d: Decoder, b: octets, max: int)
    requires d.Live()
    ensures Extends(d, b, max)
    decreases |d.buffer|
  {
    hide SizeLine, Find, ToContentLength;
    if b == "" {
      DrainTwice(d, max);
      assert d.Append(b) == d && Drain(d, max).Append(b) == Drain(d, max);
    } else if d.buffer != "" {
      EndChunkExtends(d, b);
      match EndChunk(d)
      case Stop(_) =>
      case Go(x) =>
        SizeLineExtends(x, b, max);
        match SizeLine(x, max)
        case Stop(y) =>
        case Go(y) =>
          ChunkDataExtends(y, b);
          var z := ChunkData(y);
          DrainExtends(z, b, max);
          if |y.buffer| < y.length { PassData(z.Append(b), max); }
    }
  }

  /** A call that finds nothing new does nothing. */
  lemma {:induction false} DrainTwice(d: Decoder, max: int)
    requires d.Live()
    ensures Drain(d, max).verdict.Running? ==> Drain(Drain(d, max), max) == Drain(d, max)
    ensures Drain(d, max).verdict.Saved? ==> Agrees(Drain(d, max).verdict.dropped, CHUNK_TERMINATOR)
    decreases |d.buffer|
  {
    hide Find, ToContentLength;
    if d.buffer != "" && Pass(d, max).Go? {
      DrainTwice(Pass(d, max).d, max);
    }
  }

  // ---- Confluence: how a stream was cut into reads

  /** What the socket delivered after the octets that the decoder took for the end of the transfer. */
  function Leftover(x: Decoder): octets
    requires x.verdict.Saved?
  {
    x.verdict.dropped + x.buffer
  }

  /** The call took a buffer that ended inside the terminator for a complete one, and was wrong. */
  predicate Hasty(x: Decoder) {
    x.verdict.Saved? && !Agrees(Leftover(x), CHUNK_TERMINATOR)
  }

  ghost predicate Confluent(x: Decoder, y: Decoder) {
    && (Same(x, y) <==> !Hasty(x))
    && (Hasty(x) ==> y.verdict.Running? && y.sink == x.sink && y.length == -1)
  }

  /** Reading in pieces and reading at once lead to the same octets, status and state, except when a call
      has been hasty. */
  lemma {:induction false} CutsCompared(d: Decoder, pieces: seq<octets>, max: int)
    requires d.Live() && pieces != []
    ensures Confluent(FeedAll(d, pieces, max), Feed(d, Concat(pieces), max))
    decreases pieces
  {
    var p, rest := pieces[0], pieces[1..];
    var d1 := Feed(d, p, max);
    if d1.verdict.Running? {
      FeedTwice(d, p, Concat(rest), max);
      if rest == [] {
        assert Concat(pieces) == p;
      } else {
        CutsCompared(d1, rest, max);
      }
    } else {
      FeedAfterEnd(d1, rest, max);
      FeedPastEnd(d, p, Concat(rest), max);
    }
  }

  lemma FeedTwice(d: Decoder, a: octets, b: octets, max: int)
    requires d.Live() && Feed(d, a, max).verdict.Running?
    ensures Feed(Feed(d, a, max), b, max) == Feed(d, a + b, max)
  {
    hide Drain;
    DrainExtends(d.Append(a), b, max);
    assert d.Append(a).Append(b) == d.Append(a + b);
  }

  lemma FeedPastEnd(d: Decoder, a: octets, b: octets, max: int)
    requires d.Live() && !Feed(d, a, max).verdict.Running?
    ensures Confluent(Feed(d, a, max).Append(b), Feed(d, a + b, max))
  {
    DrainExtends(d.Append(a), b, max);
    assert d.Append(a).Append(b) == d.Append(a + b);
    SavedClears(d.Append(a), max);
    assert Feed(d, a, max).verdict.Saved? ==> Feed(d, a, max).Append(b).buffer == b;
  }

  lemma {:induction false} SavedClears(d: Decoder, max: int)
    requires d.Live()
    ensures Drain(d, max).verdict.Saved? ==> Drain(d, max).buffer == ""
    decreases |d.buffer|
  {
    hide Find, ToContentLength;
    if d.buffer != "" && Pass(d, max).Go? {
      SavedClears(Pass(d, max).d, max);
    }
  }

  lemma {:induction false} FeedAfterEnd(d: Decoder, pieces: seq<octets>, max: int)
    requires !d.verdict.Running?
    ensures FeedAll(d, pieces, max) == d.Append(Concat(pieces))
    decreases pieces
  {
    if pieces == [] {
      assert d.buffer + "" == d.buffer;
    } else {
      FeedAfterEnd(d.Append(pieces[0]), pieces[1..], max);
      assert d.buffer + pieces[0] + Concat(pieces[1..]) == d.buffer + Concat(pieces);
    }
  }

  // ---- The grammar

  /** A chunk as it travels: the spelling of its size, and its data. */
  datatype Chunk = Chunk(size: octets, data: octets) {
    /** The size line is a hexadecimal numeral: upper or lower case, leading zeros allowed. */
    predicate Standard() {
      data != "" && IsNumeral(size, Hexadecimal) && Value(size, Hexadecimal) == |data| <= INT32_MAX
    }

    /** The size line is one that the decoder reads as the length of the data. */
    predicate Accepted() {
      && data != "" && size != ""
      && Find(size + CRLF, CRLF) == |size|
      && ToContentLength(size, true) == |data|
    }
  }

  /** The chunks of an encoding, without the last one. */
  function Body(chunks: seq<Chunk>): octets {
    if chunks == [] then "" else chunks[0].size + CRLF + chunks[0].data + CRLF + Body(chunks[1..])
  }

  /** A chunked body without trailers. */
  function Encode(chunks: seq<Chunk>): octets {
    Body(chunks) + CHUNK_TERMINATOR
  }

  function Payload(chunks: seq<Chunk>): octets {
    if chunks == [] then "" else chunks[0].data + Payload(chunks[1..])
  }

  /** No chunk is refused for its size, the total being `total` before. */
  predicate Fits(chunks: seq<Chunk>, total: int, max: int) {
    chunks == [] || (!Refused(|chunks[0].data|, total, max) && Fits(chunks[1..], Int32(total + |chunks[0].data|), max))
  }

  /** The total behind the chunks. */
  function Counted(chunks: seq<Chunk>, total: int): int {
    if chunks == [] then total else Counted(chunks[1..], Int32(total + |chunks[0].data|))
  }

  /** A body within the maximum fits, and its total is its length. */
  lemma {:induction false} WithinFits(chunks: seq<Chunk>, total: int, max: int)
    requires 0 <= total && total + |Payload(chunks)| <= max <= INT32_MAX
    ensures Fits(chunks, total, max) && Counted(chunks, total) == total + |Payload(chunks)|
    decreases chunks
  {
    if chunks != [] {
      assert |Payload(chunks)| == |chunks[0].data| + |Payload(chunks[1..])|;
      WithinFits(chunks[1..], total + |chunks[0].data|, max);
    }
  }

  predicate AllAccepted(chunks: seq<Chunk>) {
    forall i :: 0 <= i < |chunks| ==> chunks[i].Accepted()
  }

  lemma StandardIsAccepted(c: Chunk)
    requires c.Standard()
    ensures c.Accepted()
  {
    NumeralLength(c.size, true);
    forall k: nat | k < |c.size| ensures c.size[k] != '\r' { DigitsArePlain(c.size, Hexadecimal, k); }
    FindLineEnd(c.size, "");
    assert c.size + CRLF + "" == c.size + CRLF;
  }

  /** Every body has a standard encoding as one chunk. */
  lemma EncodeWhole(data: octets)
    requires 0 < |data| <= INT32_MAX
    ensures Chunk(Numeral(|data|, Hexadecimal), data).Standard()
  {
    NumeralValue(|data|, Hexadecimal);
  }

  // ---- Decoding what the grammar generates

  /** The state in which a size line is due. */
  function Due(buffer: octets, total: int, sink: octets): Decoder {
    Decoder(buffer, -1, total, sink, Running)
  }

  lemma ReadSize(c: Chunk, rest: octets, total: int, sink: octets, max: int)
    requires c.Accepted() && !Refused(|c.data|, total, max)
    ensures SizeLine(Due(c.size + CRLF + rest, total, sink), max)
            == Go(Decoder(rest, |c.data|, Int32(total + |c.data|), sink, Running))
  {
    hide ToContentLength, Refused, Int32;
    var line := c.size + CRLF;
    FindExtends(line, CRLF, rest);
    TakeDropAppend(line, rest, |c.size|);
    TakeDropAppend(line, rest, |line|);
    assert line[..|c.size|] == c.size && line[|line|..] + rest == rest;
  }

  lemma ReadData(data: octets, rest: octets, total: int, sink: octets)
    requires data != ""
    ensures ChunkData(Decoder(data + CRLF + rest, |data|, total, sink, Running))
            == Decoder(CRLF + rest, 0, total, sink + data, Running)
  {
    var tail := data + CRLF + rest;
    assert tail[..|data|] == data && tail[|data|..] == CRLF + rest;
  }

  lemma DrainPass(d: Decoder, y: Decoder, max: int)
    requires d.Live() && d.length == -1 && d.buffer != "" && SizeLine(d, max) == Go(y)
    ensures Drain(d, max) == Drain(ChunkData(y), max)
  {}

  lemma ReadChunk(d: Decoder, c: Chunk, tail: octets, rest: octets, max: int)
    requires d.Live() && d.length == -1 && d.buffer == c.size + CRLF + tail && tail == c.data + CRLF + rest
    requires c.Accepted() && !Refused(|c.data|, d.total, max) && rest != ""
    ensures Drain(d, max) == Drain(Due(rest, Int32(d.total + |c.data|), d.sink + c.data), max)
  {
    hide Drain, SizeLine, EndChunk, ChunkData, Find, ToContentLength, Refused, Int32;
    var y := Decoder(tail, |c.data|, Int32(d.total + |c.data|), d.sink, Running);
    assert SizeLine(d, max) == Go(y) by { ReadSize(c, tail, d.total, d.sink, max); }
    DrainPass(d, y, max);
    ReadData(c.data, rest, y.total, d.sink);
    EndOfChunk(ChunkData(y), rest, max);
  }

  lemma EndOfChunk(z: Decoder, rest: octets, max: int)
    requires z.Live() && z.length == 0 && z.buffer == CRLF + rest && rest != ""
    ensures Drain(z, max) == Drain(z.(buffer := rest, length := -1), max)
  {
    assert z.buffer[..2] == CRLF && z.buffer[2..] == rest;
  }

  lemma ReadTerminator(last: octets, total: int, sink: octets, max: int)
    requires Ends(last)
    ensures Drain(Due(last, total, sink), max) == Decoder("", 0, total, sink, Saved(last))
  {
    assert last[..3] == CHUNK_TERMINATOR[..3] by {
      var n := if |last| <= 5 then |last| else 5;
      assert last[..n][..3] == CHUNK_TERMINATOR[..n][..3];
      assert last[..n][..3] == last[..3] && CHUNK_TERMINATOR[..n][..3] == CHUNK_TERMINATOR[..3];
    }
    assert last == "0" + CRLF + last[3..];
    FindLineEnd("0", last[3..]);
    assert last[..1] == "0";
    ZeroIsZero();
  }

  lemma ZeroIsZero()
    ensures ToContentLength("0", true) == 0
  {
    assert Value("0", Hexadecimal) == Hexadecimal.Scale(Value("", Hexadecimal)) + 0;
    NumeralLength("0", true);
  }

  lemma BodyStep(chunks: seq<Chunk>, last: octets)
    requires chunks != []
    ensures var c, cs := chunks[0], chunks[1..];
            Body(chunks) + last == c.size + CRLF + (c.data + CRLF + (Body(cs) + last))
    ensures Payload(chunks) == chunks[0].data + Payload(chunks[1..])
    ensures AllAccepted(chunks) ==> chunks[0].Accepted() && AllAccepted(chunks[1..])
  {
    hide Chunk.Accepted;
    Regroup(chunks[0].size, CRLF, chunks[0].data, CRLF, Body(chunks[1..]), last);
  }

  /** The state after the chunks and then `last` have been read in one piece. */
  function Decoded(chunks: seq<Chunk>, last: octets, total: int, sink: octets): Decoder {
    Decoder("", 0, Counted(chunks, total), sink + Payload(chunks), Saved(last))
  }

  lemma DecodedStep(chunks: seq<Chunk>, last: octets, total: int, sink: octets)
    requires chunks != []
    ensures Decoded(chunks, last, total, sink)
            == Decoded(chunks[1..], last, Int32(total + |chunks[0].data|), sink + chunks[0].data)
  {
    assert sink + chunks[0].data + Payload(chunks[1..]) == sink + Payload(chunks);
  }

  /** The octets hold a `0` line, and agree with the terminator as far as they go. */
  predicate Ends(last: octets) {
    |last| >= 3 && Agrees(last, CHUNK_TERMINATOR)
  }

  lemma TerminatorEnds(tail: octets)
    ensures Ends(CHUNK_TERMINATOR + tail)
  {
    assert (CHUNK_TERMINATOR + tail)[..5] == CHUNK_TERMINATOR[..5];
  }

  lemma DecodeEmpty(last: octets, total: int, sink: octets, max: int)
    requires Ends(last)
    ensures Drain(Due(Body([]) + last, total, sink), max) == Decoded([], last, total, sink)
  {
    hide Drain;
    assert Body([]) + last == last && sink + Payload([]) == sink;
    ReadTerminator(last, total, sink, max);
  }

  lemma DecodeFirst(chunks: seq<Chunk>, last: octets, total: int, sink: octets, max: int)
    requires chunks != [] && AllAccepted(chunks) && last != ""
    requires !Refused(|chunks[0].data|, total, max)
    ensures Drain(Due(Body(chunks) + last, total, sink), max)
            == Drain(Due(Body(chunks[1..]) + last, Int32(total + |chunks[0].data|), sink + chunks[0].data), max)
  {
    hide Drain, Body, Payload, Chunk.Accepted, Refused, Int32;
    BodyStep(chunks, last);
    var c := chunks[0];
    var rest := Body(chunks[1..]) + last;
    ReadChunk(Due(Body(chunks) + last, total, sink), c, c.data + CRLF + rest, rest, max);
  }

  lemma EndsNotEmpty(last: octets)
    requires Ends(last)
    ensures last != ""
  {}

  lemma {:induction false} DecodeEncoded(chunks: seq<Chunk>, last: octets, total: int, sink: octets, max: int)
    requires AllAccepted(chunks) && Fits(chunks, total, max) && Ends(last)
    ensures Drain(Due(Body(chunks) + last, total, sink), max) == Decoded(chunks, last, total, sink)
    decreases chunks
  {
    hide Drain, Decoded, Ends, Chunk.Accepted, Refused, Int32;
    assert last != "" by { EndsNotEmpty(last); }
    if chunks == [] {
      DecodeEmpty(last, total, sink, max);
    } else {
      var c, cs := chunks[0], chunks[1..];
      assert AllAccepted(cs) && c.Accepted();
      hide *;
      DecodeFirst(chunks, last, total, sink, max);
      DecodeEncoded(cs, last, Int32(total + |c.data|), sink + c.data, max);
      DecodedStep(chunks, last, total, sink);
    }
  }

  lemma FeedEncoded(chunks: seq<Chunk>, last: octets, max: int)
    requires AllAccepted(chunks) && Fits(chunks, 0, max) && Ends(last)
    ensures Feed(START, Body(chunks) + last, max) == Decoded(chunks, last, 0, "")
  {
    hide Drain;
    DecodeEncoded(chunks, last, 0, "", max);
    assert "" + (Body(chunks) + last) == Body(chunks) + last;
  }

  lemma ConfluentSaved(x: Decoder, y: Decoder)
    requires Confluent(x, y) && y.verdict.Saved?
    ensures x.verdict.Saved? && x.sink == y.sink
  {}

  /** An encoded body that arrives in one piece. */
  lemma FeedEncodedWhole(chunks: seq<Chunk>, tail: octets, max: int)
    requires AllAccepted(chunks) && |Payload(chunks)| <= max <= INT32_MAX
    ensures var x := Feed(START, Encode(chunks) + tail, max);
            x.verdict.Saved? && x.sink == Payload(chunks)
  {
    var last := CHUNK_TERMINATOR + tail;
    assert Encode(chunks) + tail == Body(chunks) + last by { Assoc(Body(chunks), CHUNK_TERMINATOR, tail); }
    hide Drain, Feed, Body, AllAccepted, Ends;
    TerminatorEnds(tail);
    WithinFits(chunks, 0, max);
    FeedEncoded(chunks, last, max);
    assert "" + Payload(chunks) == Payload(chunks);
  }

  /** Round trip: however an encoded body is cut into reads, exactly the body is delivered and the
      transfer ends in success. */
  lemma RoundTrip(chunks: seq<Chunk>, tail: octets, pieces: seq<octets>, max: int)
    requires AllAccepted(chunks) && |Payload(chunks)| <= max <= INT32_MAX
    requires Concat(pieces) == Encode(chunks) + tail
    ensures var x := FeedAll(START, pieces, max);
            x.verdict.Saved? && x.sink == Payload(chunks)
  {
    assert pieces != [];
    assert START.Live();
    hide *;
    FeedEncodedWhole(chunks, tail, max);
    CutsCompared(START, pieces, max);
    ConfluentSaved(FeedAll(START, pieces, max), Feed(START, Concat(pieces), max));
  }

  /** A chunk whose size is written with digits of either case, and with any zeros before them. */
  ghost predicate SpeltOut(c: Chunk, zeros: octets, digits: octets) {
    && 0 < |c.data| <= INT32_MAX && c.size == zeros + digits
    && (forall z <- zeros :: z == '0') && InAnyCase(digits, Numeral(|c.data|, Hexadecimal))
  }

  lemma SpeltIsStandard(c: Chunk, zeros: octets, digits: octets)
    requires SpeltOut(c, zeros, digits)
    ensures c.Standard()
  {
    NumeralInAnyCase(|c.data|, digits, zeros);
  }

  /** The round trip for every way to write the sizes. */
  lemma RoundTripInAnyCase(chunks: seq<Chunk>, tail: octets, pieces: seq<octets>, max: int)
    requires forall c <- chunks :: exists zeros, digits :: SpeltOut(c, zeros, digits)
    requires |Payload(chunks)| <= max <= INT32_MAX && Concat(pieces) == Encode(chunks) + tail
    ensures var x := FeedAll(START, pieces, max);
            x.verdict.Saved? && x.sink == Payload(chunks)
  {
    hide SpeltOut, Chunk.Standard, Chunk.Accepted, Payload, Encode, FeedAll;
    forall i | 0 <= i < |chunks| ensures chunks[i].Accepted() {
      assert chunks[i] in chunks;
      var zeros, digits :| SpeltOut(chunks[i], zeros, digits);
      SpeltIsStandard(chunks[i], zeros, digits);
      StandardIsAccepted(chunks[i]);
    }
    RoundTrip(chunks, tail, pieces, max);
  }
}
