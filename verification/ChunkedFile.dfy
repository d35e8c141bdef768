/** What the file branch of `_writeChunk` writes (srcs/Request/ARequest-body.cpp:76): not the octets it
    is given but as many as `_contentLength` says, which reads past the buffer when a read ended inside
    the data of a chunk. The file is the body if and only if no read did. */
module ChunkedFile {
  import opened Octets
  import opened Numbers
  import opened ChunkedCoding
  import opened FileWrites

  /** Octets that one call asks the file stream to write: `_contentLength` for each write. */
  function Asked(d: Decoder, max: int): nat
    requires d.Live()
    decreases |d.buffer|
  {
    if d.buffer == "" then 0
    else match EndChunk(d)
      case Stop(_) => 0
      case Go(x) =>
        match SizeLine(x, max)
        case Stop(_) => 0
        case Go(y) => y.length + Asked(ChunkData(y), max)
  }

  function AskedAll(d: Decoder, pieces: seq<octets>, max: int): nat
    requires d.verdict.Running? ==> d.Live()
    decreases pieces
  {
    if pieces == [] then 0
    else (if d.verdict.Running? then Asked(d.Append(pieces[0]), max) else 0)
         + AskedAll(Feed(d, pieces[0], max), pieces[1..], max)
  }

  /** What one call writes. */
  function Writes(d: Decoder, max: int): seq<Cell>
    requires d.Live()
    decreases |d.buffer|
  {
    if d.buffer == "" then []
    else match EndChunk(d)
      case Stop(_) => []
      case Go(x) =>
        match SizeLine(x, max)
        case Stop(_) => []
        case Go(y) => Written(y.buffer, y.length) + Writes(ChunkData(y), max)
  }

  function WritesAll(d: Decoder, pieces: seq<octets>, max: int): seq<Cell>
    requires d.verdict.Running? ==> d.Live()
    decreases pieces
  {
    if pieces == [] then []
    else (if d.verdict.Running? then Writes(d.Append(pieces[0]), max) else [])
         + WritesAll(Feed(d, pieces[0], max), pieces[1..], max)
  }

  lemma {:induction false} WritesLength(d: Decoder, max: int)
    requires d.Live()
    ensures |Writes(d, max)| == Asked(d, max)
    decreases |d.buffer|
  {
    hide Find, ToContentLength, Written;
    if d.buffer != "" && EndChunk(d).Go? && SizeLine(EndChunk(d).d, max).Go? {
      WritesLength(ChunkData(SizeLine(EndChunk(d).d, max).d), max);
    }
  }

  lemma {:induction false} WritesAllLength(d: Decoder, pieces: seq<octets>, max: int)
    requires d.verdict.Running? ==> d.Live()
    ensures |WritesAll(d, pieces, max)| == AskedAll(d, pieces, max)
    decreases pieces
  {
    hide Drain, Asked, Writes;
    if pieces != [] {
      if d.verdict.Running? { WritesLength(d.Append(pieces[0]), max); }
      WritesAllLength(Feed(d, pieces[0], max), pieces[1..], max);
    }
  }

  /** The transfer goes on and waits for the rest of a chunk. */
  predicate MidChunk(d: Decoder) {
    d.verdict.Running? && d.length > 0
  }

  /** A pass that returns has written nothing and is not in the middle of a chunk; one that goes on has
      asked for the whole rest of the chunk. */
  lemma AskedPass(d: Decoder, max: int)
    requires d.Live() && d.buffer != ""
    ensures var next := Pass(d, max);
            if next.Stop? then Asked(d, max) == 0 && !MidChunk(next.d) && next.d.sink == d.sink
            else
              var grown := |next.d.sink| - |d.sink|;
              && Asked(d, max) == grown + next.d.length + Asked(next.d, max)
              && (next.d.buffer != "" ==> next.d.length == 0)
  {
    hide Find, ToContentLength;
    if EndChunk(d).Go? {
      var x := EndChunk(d).d;
      assert SizeLine(x, max).d.sink == d.sink;
      hide EndChunk, SizeLine;
    }
  }

  lemma {:induction false} AskedCall(d: Decoder, max: int)
    requires d.Live()
    ensures Asked(d, max) == |Drain(d, max).sink| - |d.sink|
                             + if d.buffer != "" && MidChunk(Drain(d, max)) then Drain(d, max).length else 0
    decreases |d.buffer|
  {
    if d.buffer != "" {
      AskedPass(d, max);
      hide Asked, Pass;
      if Pass(d, max).Go? { AskedCall(Pass(d, max).d, max); }
    }
  }

  lemma {:induction false} AskedAtLeast(d: Decoder, pieces: seq<octets>, max: int)
    requires d.verdict.Running? ==> d.Live()
    ensures AskedAll(d, pieces, max) >= |FeedAll(d, pieces, max).sink| - |d.sink|
    decreases pieces
  {
    hide Drain, Asked;
    if pieces != [] {
      if d.verdict.Running? { AskedCall(d.Append(pieces[0]), max); }
      AskedAtLeast(Feed(d, pieces[0], max), pieces[1..], max);
    }
  }

  /** Neither now nor after any of the reads does the decoder wait for the rest of a chunk. */
  predicate NeverMid(d: Decoder, pieces: seq<octets>, max: int)
    requires d.verdict.Running? ==> d.Live()
    decreases pieces
  {
    !MidChunk(d) && (pieces == [] || NeverMid(Feed(d, pieces[0], max), pieces[1..], max))
  }

  /** For every stream and cutting: the file gets as many octets as were delivered exactly when no call
      ended inside the data of a chunk. */
  lemma {:induction false} AskedExactly(d: Decoder, pieces: seq<octets>, max: int)
    requires (d.verdict.Running? ==> d.Live()) && !MidChunk(d)
    ensures AskedAll(d, pieces, max) == |FeedAll(d, pieces, max).sink| - |d.sink| <==> NeverMid(d, pieces, max)
    decreases pieces
  {
    if pieces != [] {
      var d1 := Feed(d, pieces[0], max);
      assert d.verdict.Running? && d.buffer + pieces[0] == "" ==> d1 == d;
      hide Drain, Asked;
      if d.verdict.Running? { AskedCall(d.Append(pieces[0]), max); }
      AskedAtLeast(d1, pieces[1..], max);
      if !MidChunk(d1) { AskedExactly(d1, pieces[1..], max); }
    }
  }

  /** A call that does not end waiting for data has written what it delivered. */
  lemma {:induction false} WritesDelivered(d: Decoder, max: int)
    requires d.Live() && !(d.buffer != "" && MidChunk(Drain(d, max)))
    ensures d.sink <= Drain(d, max).sink && Writes(d, max) == Cells(Drain(d, max).sink[|d.sink|..])
    decreases |d.buffer|
  {
    hide Find, ToContentLength, Written, Cells;
    CellsAppend("", "");
    if d.buffer == "" {
      assert d.sink[|d.sink|..] == "";
    } else if EndChunk(d).Go? && SizeLine(EndChunk(d).d, max).Go? {
      assert EndChunk(d).d.sink == d.sink;
      var y := SizeLine(EndChunk(d).d, max).d;
      assert y.sink == d.sink && Drain(d, max) == Drain(ChunkData(y), max);
      assert Writes(d, max) == Written(y.buffer, y.length) + Writes(ChunkData(y), max);
      hide EndChunk, SizeLine, Drain, Writes;
      WaitsForData(y, max);
      WritesDelivered(ChunkData(y), max);
      WritesStep(y, Drain(ChunkData(y), max).sink);
    } else {
      StopsWithoutData(d, max);
    }
  }

  lemma WaitsForData(y: Decoder, max: int)
    requires y.Live() && y.length > 0
    ensures |y.buffer| < y.length ==> MidChunk(Drain(ChunkData(y), max))
  {}

  lemma StopsWithoutData(d: Decoder, max: int)
    requires d.Live() && d.buffer != "" && (EndChunk(d).Stop? || SizeLine(EndChunk(d).d, max).Stop?)
    ensures Drain(d, max).sink == d.sink && Writes(d, max) == [] && d.sink[|d.sink|..] == ""
  {
    hide Find, ToContentLength;
  }

  lemma WritesStep(y: Decoder, after: octets)
    requires y.Live() && 0 < y.length <= |y.buffer| && ChunkData(y).sink <= after
    ensures y.sink <= after
    ensures Written(y.buffer, y.length) + Cells(after[|ChunkData(y).sink|..]) == Cells(after[|y.sink|..])
  {
    var part, rest := y.buffer[..y.length], after[|ChunkData(y).sink|..];
    assert |y.buffer| == y.length ==> part == y.buffer;
    assert ChunkData(y).sink == y.sink + part;
    assert after == y.sink + part + rest;
    assert after[|y.sink|..] == part + rest;
    CellsAppend(part, rest);
    hide Cells, Written;
  }

  lemma FeedWritesDelivered(d: Decoder, piece: octets, max: int)
    requires (d.verdict.Running? ==> d.Live()) && !MidChunk(d) && !MidChunk(Feed(d, piece, max))
    ensures d.sink <= Feed(d, piece, max).sink
    ensures (if d.verdict.Running? then Writes(d.Append(piece), max) else [])
            == Cells(Feed(d, piece, max).sink[|d.sink|..])
  {
    hide Drain, Writes, Cells;
    CellsAppend("", "");
    if d.verdict.Running? {
      WritesDelivered(d.Append(piece), max);
    } else {
      assert d.sink[|d.sink|..] == "";
    }
  }

  lemma SinkParts(a: octets, b: octets, c: octets)
    requires a <= b <= c
    ensures a <= c && Cells(c[|a|..]) == Cells(b[|a|..]) + Cells(c[|b|..])
  {
    assert c[|a|..] == b[|a|..] + c[|b|..];
    CellsAppend(b[|a|..], c[|b|..]);
  }

  lemma {:induction false} RunWritesDelivered(d: Decoder, pieces: seq<octets>, max: int)
    requires (d.verdict.Running? ==> d.Live()) && NeverMid(d, pieces, max)
    ensures d.sink <= FeedAll(d, pieces, max).sink
    ensures WritesAll(d, pieces, max) == Cells(FeedAll(d, pieces, max).sink[|d.sink|..])
    decreases pieces
  {
    hide Drain, Writes, Cells, Feed;
    if pieces == [] {
      CellsAppend("", "");
      assert d.sink[|d.sink|..] == "";
    } else {
      var d1 := Feed(d, pieces[0], max);
      FeedWritesDelivered(d, pieces[0], max);
      RunWritesDelivered(d1, pieces[1..], max);
      SinkParts(d.sink, d1.sink, FeedAll(d, pieces, max).sink);
    }
  }

  /** For every stream and cutting: the file holds what was delivered exactly when no call ended inside the
      data of a chunk. */
  lemma WritesExactly(d: Decoder, pieces: seq<octets>, max: int)
    requires (d.verdict.Running? ==> d.Live()) && !MidChunk(d) && d.sink == ""
    ensures WritesAll(d, pieces, max) == Cells(FeedAll(d, pieces, max).sink) <==> NeverMid(d, pieces, max)
  {
    hide Drain, FeedAll, WritesAll, AskedAll, NeverMid, Cells;
    AskedExactly(d, pieces, max);
    WritesAllLength(d, pieces, max);
    var sink := FeedAll(d, pieces, max).sink;
    assert sink[0..] == sink;
    if NeverMid(d, pieces, max) { RunWritesDelivered(d, pieces, max); }
  }

  /** Offset `n` of an encoding is past the size line of a chunk and before the end of its data. */
  predicate InsideData(chunks: seq<Chunk>, n: int) {
    chunks != [] &&
    var start := |chunks[0].size| + 2;
    var end := start + |chunks[0].data|;
    start <= n < end || InsideData(chunks[1..], n - end - 2)
  }

  lemma {:induction false} NotInside(chunks: seq<Chunk>, n: int)
    requires n <= 0
    ensures !InsideData(chunks, n)
  {
    if chunks != [] { NotInside(chunks[1..], n - (|chunks[0].size| + 2 + |chunks[0].data|) - 2); }
  }

  lemma LastIsNotData(last: octets, n: nat, total: int, sink: octets, max: int)
    requires Ends(last) && n <= |last|
    ensures !MidChunk(Drain(Due(last[..n], total, sink), max))
  {
    if n >= 3 {
      var m := if n <= 5 then n else 5;
      var k := if |last| <= 5 then |last| else 5;
      assert last[..n][..m] == last[..k][..m] && CHUNK_TERMINATOR[..k][..m] == CHUNK_TERMINATOR[..m];
      hide Drain;
      ReadTerminator(last[..n], total, sink, max);
    } else {
      hide ToContentLength;
      ReadTerminatorLine(last);
      NoCrlfPrefix(last, n);
    }
  }

  lemma ReadTerminatorLine(last: octets)
    requires Ends(last)
    ensures Find(last, CRLF) == 1
  {
    var k := if |last| <= 5 then |last| else 5;
    assert last[..k][..3] == last[..3] && CHUNK_TERMINATOR[..k][..3] == "0\r\n";
    assert last == "0" + CRLF + last[3..];
    FindLineEnd("0", last[3..]);
  }

  lemma NoSizeLine(c: Chunk, rest: octets, n: nat, total: int, sink: octets, max: int)
    requires c.Accepted() && n < |c.size| + 2
    ensures Drain(Due((c.size + CRLF + rest)[..n], total, sink), max).length == -1
  {
    hide ToContentLength;
    FindExtends(c.size + CRLF, CRLF, rest);
    NoCrlfPrefix(c.size + CRLF + rest, n);
  }

  lemma PartOfData(c: Chunk, part: octets, total: int, sink: octets, max: int)
    requires c.Accepted() && 0 <= total && total + |c.data| <= max <= INT32_MAX
    requires |part| <= |c.data|
    ensures var r := Drain(Due(c.size + CRLF + part, total, sink), max);
            r == Decoder("", |c.data| - |part|, total + |c.data|, sink + part, Running)
  {
    ReadSize(c, part, total, sink, max);
    var d := Due(c.size + CRLF + part, total, sink);
    hide SizeLine, ToContentLength, Find;
    DrainPass(d, SizeLine(d, max).d, max);
  }

  /** The CRLF that ends a chunk, and nothing after it, is not data. */
  lemma EndOfData(c: Chunk, part: octets, total: int, sink: octets, max: int)
    requires c.Accepted() && 0 <= total && total + |c.data| <= max <= INT32_MAX
    requires part == "\r" || part == CRLF
    ensures !MidChunk(Drain(Due(c.size + CRLF + (c.data + part), total, sink), max))
  {
    ReadSize(c, c.data + part, total, sink, max);
    var d := Due(c.size + CRLF + (c.data + part), total, sink);
    var y := SizeLine(d, max).d;
    DrainPass(d, y, max);
    assert y.buffer[|c.data|..] == part;
    hide ToContentLength;
  }

  lemma CutChunk(c: Chunk, rest: octets, n: nat)
    requires n <= |c.size + CRLF + (c.data + CRLF + rest)|
    ensures var s := c.size + CRLF + (c.data + CRLF + rest);
            var start, end := |c.size| + 2, |c.size| + 2 + |c.data|;
            && (start <= n <= end ==> s[..n] == c.size + CRLF + c.data[..n - start])
            && (n == end + 1 ==> s[..n] == c.size + CRLF + (c.data + "\r"))
            && (n == end + 2 ==> s[..n] == c.size + CRLF + (c.data + CRLF))
            && (n > end + 2 ==> s[..n] == c.size + CRLF + (c.data + CRLF + rest[..n - end - 2]))
  {}

  lemma CutFirst(chunks: seq<Chunk>, last: octets, n: nat)
    requires chunks != [] && n <= |Body(chunks) + last|
    ensures var c, rest := chunks[0], Body(chunks[1..]) + last;
            n <= |c.size + CRLF + (c.data + CRLF + rest)|
            && (Body(chunks) + last)[..n] == (c.size + CRLF + (c.data + CRLF + rest))[..n]
  {
    BodyStep(chunks, last);
  }

  lemma MidFirst(c: Chunk, rest: octets, s: octets, n: nat, total: int, sink: octets, max: int)
    requires c.Accepted() && 0 <= total && total + |c.data| <= max <= INT32_MAX
    requires n <= |c.size + CRLF + (c.data + CRLF + rest)| && s == (c.size + CRLF + (c.data + CRLF + rest))[..n]
    requires n <= |c.size| + 2 + |c.data| + 2
    ensures MidChunk(Drain(Due(s, total, sink), max)) <==> |c.size| + 2 <= n < |c.size| + 2 + |c.data|
  {
    hide Drain, Chunk.Accepted;
    var start, end := |c.size| + 2, |c.size| + 2 + |c.data|;
    if n < start {
      NoSizeLine(c, c.data + CRLF + rest, n, total, sink, max);
    } else if n <= end {
      assert s == c.size + CRLF + c.data[..n - start] by { CutChunk(c, rest, n); }
      PartOfData(c, c.data[..n - start], total, sink, max);
    } else {
      var part := if n == end + 1 then "\r" else CRLF;
      assert s == c.size + CRLF + (c.data + part) by { CutChunk(c, rest, n); }
      EndOfData(c, part, total, sink, max);
    }
  }

  lemma InsideStep(chunks: seq<Chunk>, n: int)
    requires chunks != []
    ensures var start, end := |chunks[0].size| + 2, |chunks[0].size| + 2 + |chunks[0].data|;
            InsideData(chunks, n) <==> start <= n < end || InsideData(chunks[1..], n - end - 2)
  {}

  lemma MidEmpty(last: octets, n: nat, total: int, sink: octets, max: int)
    requires Ends(last) && n <= |Body([]) + last|
    ensures !MidChunk(Drain(Due((Body([]) + last)[..n], total, sink), max)) && !InsideData([], n)
  {
    assert Body([]) + last == last;
    hide Drain;
    LastIsNotData(last, n, total, sink, max);
  }

  lemma MidInFirst(chunks: seq<Chunk>, last: octets, n: nat, total: int, sink: octets, max: int)
    requires chunks != [] && chunks[0].Accepted() && 0 <= total && total + |chunks[0].data| <= max <= INT32_MAX
    requires n <= |Body(chunks) + last| && n <= |chunks[0].size| + 2 + |chunks[0].data| + 2
    ensures MidChunk(Drain(Due((Body(chunks) + last)[..n], total, sink), max)) <==> InsideData(chunks, n)
  {
    hide *;
    var c := chunks[0];
    CutFirst(chunks, last, n);
    InsideStep(chunks, n);
    NotInside(chunks[1..], n - (|c.size| + 2 + |c.data|) - 2);
    MidFirst(c, Body(chunks[1..]) + last, (Body(chunks) + last)[..n], n, total, sink, max);
  }

  lemma MidInRest(chunks: seq<Chunk>, last: octets, n: nat, total: int, sink: octets, max: int)
    requires chunks != [] && chunks[0].Accepted() && 0 <= total && total + |chunks[0].data| <= max <= INT32_MAX
    requires n <= |Body(chunks) + last| && n > |chunks[0].size| + 2 + |chunks[0].data| + 2
    ensures var c, m := chunks[0], n - (|chunks[0].size| + 2 + |chunks[0].data|) - 2;
            && m <= |Body(chunks[1..]) + last|
            && Drain(Due((Body(chunks) + last)[..n], total, sink), max)
               == Drain(Due((Body(chunks[1..]) + last)[..m], total + |c.data|, sink + c.data), max)
            && (InsideData(chunks, n) <==> InsideData(chunks[1..], m))
  {
    hide *;
    CutFirst(chunks, last, n);
    InsideStep(chunks, n);
    MidLater(chunks[0], Body(chunks[1..]) + last, (Body(chunks) + last)[..n], n, total, sink, max);
  }

  /** The decoder waits for data exactly at the offsets inside the data of a chunk. */
  lemma {:induction false} MidChunkExactly(chunks: seq<Chunk>, last: octets, n: nat, total: int, sink: octets, max: int)
    requires AllAccepted(chunks) && 0 <= total && total + |Payload(chunks)| <= max <= INT32_MAX && Ends(last)
    requires n <= |Body(chunks) + last|
    ensures MidChunk(Drain(Due((Body(chunks) + last)[..n], total, sink), max)) <==> InsideData(chunks, n)
    decreases chunks
  {
    hide Drain, Chunk.Accepted, Body, InsideData, Ends;
    if chunks == [] {
      MidEmpty(last, n, total, sink, max);
    } else {
      var c, cs := chunks[0], chunks[1..];
      var end := |c.size| + 2 + |c.data|;
      assert |Payload(chunks)| == |c.data| + |Payload(cs)| && AllAccepted(cs) && c.Accepted();
      hide *;
      if n <= end + 2 {
        MidInFirst(chunks, last, n, total, sink, max);
      } else {
        MidInRest(chunks, last, n, total, sink, max);
        MidChunkExactly(cs, last, n - end - 2, total + |c.data|, sink + c.data, max);
      }
    }
  }

  lemma MidLater(c: Chunk, rest: octets, s: octets, n: nat, total: int, sink: octets, max: int)
    requires c.Accepted() && 0 <= total && total + |c.data| <= max <= INT32_MAX
    requires n <= |c.size + CRLF + (c.data + CRLF + rest)| && s == (c.size + CRLF + (c.data + CRLF + rest))[..n]
    requires n > |c.size| + 2 + |c.data| + 2
    ensures var m := n - (|c.size| + 2 + |c.data|) - 2;
            m <= |rest| && Drain(Due(s, total, sink), max) == Drain(Due(rest[..m], total + |c.data|, sink + c.data), max)
  {
    hide Drain, Chunk.Accepted;
    var m := n - (|c.size| + 2 + |c.data|) - 2;
    CutChunk(c, rest, n);
    ReadChunk(Due(s, total, sink), c, c.data + CRLF + rest[..m], rest[..m], max);
  }

  lemma {:induction false} FeedAllAppend(d: Decoder, xs: seq<octets>, p: octets, max: int)
    requires d.verdict.Running? ==> d.Live()
    ensures FeedAll(d, xs + [p], max) == Feed(FeedAll(d, xs, max), p, max)
    decreases xs
  {
    hide Drain;
    if xs == [] {
      assert xs + [p] == [p];
    } else {
      assert (xs + [p])[1..] == xs[1..] + [p];
      FeedAllAppend(Feed(d, xs[0], max), xs[1..], p, max);
    }
  }

  /** The state after some reads of a stream depends on how much was read, not on how it was cut. */
  lemma MidAfterReads(chunks: seq<Chunk>, last: octets, pieces: seq<octets>, k: nat, max: int)
    requires AllAccepted(chunks) && |Payload(chunks)| <= max <= INT32_MAX && Ends(last)
    requires Concat(pieces) == Body(chunks) + last && k <= |pieces|
    ensures MidChunk(FeedAll(START, pieces[..k], max)) <==> InsideData(chunks, |Concat(pieces[..k])|)
  {
    if k == 0 {
      NotInside(chunks, 0);
    } else {
      var s := Concat(pieces[..k]);
      assert s == (Body(chunks) + last)[..|s|] by { hide Body; ConcatIsPrefix(pieces, k); }
      assert Feed(START, s, max) == Drain(Due(s, 0, ""), max) by {
        hide Drain;
        assert "" + s == s;
      }
      hide *;
      MidChunkExactly(chunks, last, |s|, 0, "", max);
      ConfluentMid(pieces[..k], max);
    }
  }

  lemma ConcatIsPrefix(pieces: seq<octets>, k: nat)
    requires k <= |pieces|
    ensures |Concat(pieces[..k])| <= |Concat(pieces)|
    ensures Concat(pieces[..k]) == Concat(pieces)[..|Concat(pieces[..k])|]
  {
    assert pieces == pieces[..k] + pieces[k..];
    ConcatAppend(pieces[..k], pieces[k..]);
  }

  lemma ConfluentMid(pieces: seq<octets>, max: int)
    requires pieces != []
    ensures MidChunk(FeedAll(START, pieces, max)) == MidChunk(Feed(START, Concat(pieces), max))
  {
    hide Drain, FeedAll, Feed;
    CutsCompared(START, pieces, max);
  }

  /** A cutting whose reads never end inside the data of a chunk. */
  ghost predicate CutsOutsideData(chunks: seq<Chunk>, pieces: seq<octets>, from: nat) {
    forall k :: from <= k <= |pieces| ==> !InsideData(chunks, |Concat(pieces[..k])|)
  }

  lemma {:induction false} NeverMidExactly(chunks: seq<Chunk>, last: octets, pieces: seq<octets>, k: nat, max: int)
    requires AllAccepted(chunks) && |Payload(chunks)| <= max <= INT32_MAX && Ends(last)
    requires Concat(pieces) == Body(chunks) + last && k <= |pieces|
    ensures NeverMid(FeedAll(START, pieces[..k], max), pieces[k..], max) <==> CutsOutsideData(chunks, pieces, k)
    decreases |pieces| - k
  {
    hide Drain, FeedAll, Feed, InsideData, Body, Payload, AllAccepted, Ends, Concat;
    MidAfterReads(chunks, last, pieces, k, max);
    if k < |pieces| {
      var p := pieces[k];
      assert pieces[k..][0] == p && pieces[k..][1..] == pieces[k + 1..];
      assert pieces[..k + 1] == pieces[..k] + [p];
      FeedAllAppend(START, pieces[..k], p, max);
      NeverMidExactly(chunks, last, pieces, k + 1, max);
    }
  }

  /** The upload of an encoded body writes exactly the body if and only if no read ended inside the data of
      a chunk; otherwise the file is longer. */
  lemma FileExactly(chunks: seq<Chunk>, tail: octets, pieces: seq<octets>, max: int)
    requires AllAccepted(chunks) && |Payload(chunks)| <= max <= INT32_MAX
    requires Concat(pieces) == Encode(chunks) + tail
    ensures var file := WritesAll(START, pieces, max);
            && (file == Cells(Payload(chunks)) <==> CutsOutsideData(chunks, pieces, 0))
            && (file != Cells(Payload(chunks)) ==> |file| > |Payload(chunks)|)
  {
    var last := CHUNK_TERMINATOR + tail;
    assert Encode(chunks) + tail == Body(chunks) + last by { Assoc(Body(chunks), CHUNK_TERMINATOR, tail); }
    assert pieces[..0] == [] && pieces[0..] == pieces && FeedAll(START, [], max) == START;
    assert START.Live() && !MidChunk(START) && START.sink == "";
    hide *;
    TerminatorEnds(tail);
    RoundTrip(chunks, tail, pieces, max);
    AskedAtLeast(START, pieces, max);
    AskedExactly(START, pieces, max);
    WritesAllLength(START, pieces, max);
    WritesExactly(START, pieces, max);
    NeverMidExactly(chunks, last, pieces, 0, max);
  }
}
