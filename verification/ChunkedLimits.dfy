/** What the chunked decoder delivers never exceeds the configured maximum, and what it accepts is
    exactly the grammar. */
module ChunkedLimits {
  import opened Octets
  import opened Numbers
  import opened ChunkedCoding

  // The largest maximum for which the int32_t total cannot hide an overflow
  const SAFE_MAX := 0x3FFF_FFFF

  function Remaining(d: Decoder): int {
    if d.length > 0 then d.length else 0
  }

  /** The accounting kept between two calls. */
  predicate Accounted(d: Decoder, max: int) {
    && |d.sink| <= max
    && (d.verdict.Running? ==> d.length >= -1 && d.total == |d.sink| + Remaining(d) <= max)
    && (d.verdict.Saved? ==> d.total == |d.sink|)
  }

  lemma RefusedExactly(n: int, total: int, max: int)
    requires 0 <= total <= max <= SAFE_MAX && CONTENT_LENGTH_TOO_LARGE <= n <= INT32_MAX && n != 0
    ensures Refused(n, total, max) <==> n == CONTENT_LENGTH_TOO_LARGE || total + n > max
  {}

  /** The test refuses every chunk that exceeds the maximum exactly when the maximum is below 2^30:
      from there on, the sum may wrap around to a negative total. */
  lemma OverflowDetected(max: int)
    requires 0 <= max <= INT32_MAX
    ensures (forall n, total :: 0 <= total <= max && 0 < n <= INT32_MAX && total + n > max ==> Refused(n, total, max))
            <==> max <= SAFE_MAX
  {
    if max <= SAFE_MAX {
      forall n, total | 0 <= total <= max && 0 < n <= INT32_MAX && total + n > max ensures Refused(n, total, max) {
        RefusedExactly(n, total, max);
      }
    } else {
      assert Int32(max + max) == 2 * max - 0x1_0000_0000;
      assert !Refused(max, max, max);
    }
  }

  lemma PassAccounts(d: Decoder, max: int)
    requires d.Live() && d.buffer != "" && 0 <= max <= SAFE_MAX && Accounted(d, max)
    ensures Accounted(Pass(d, max).d, max)
  {
    hide Find, ToContentLength;
    if EndChunk(d).Go? {
      var x := EndChunk(d).d;
      SizeLineAccounts(x, max);
    }
  }

  lemma SizeLineAccounts(x: Decoder, max: int)
    requires x.Live() && x.length != 0 && 0 <= max <= SAFE_MAX && Accounted(x, max)
    ensures Accounted(SizeLine(x, max).d, max)
  {
    hide Find, ToContentLength, Refused, MayTerminate, Agrees;
    var pos := Find(x.buffer, CRLF);
    if x.length == -1 && pos > 0 {
      var n := ToContentLength(x.buffer[..pos], true);
      if n != CONTENT_LENGTH_INVALID && n != 0 { RefusedExactly(n, x.total, max); }
    }
  }

  lemma {:induction false} DrainAccounts(d: Decoder, max: int)
    requires d.Live() && 0 <= max <= SAFE_MAX && Accounted(d, max)
    ensures Accounted(Drain(d, max), max)
    decreases |d.buffer|
  {
    hide Find, ToContentLength;
    if d.buffer != "" {
      PassAccounts(d, max);
      if Pass(d, max).Go? { DrainAccounts(Pass(d, max).d, max); }
    }
  }

  /** In every reachable state, delivered octets plus the rest of the chunk make the total, at most
      the maximum; in every run, well formed or not. */
  lemma {:induction false} RunAccounts(d: Decoder, pieces: seq<octets>, max: int)
    requires d.verdict.Running? ==> d.Live()
    requires 0 <= max <= SAFE_MAX && Accounted(d, max)
    ensures Accounted(FeedAll(d, pieces, max), max)
    decreases pieces
  {
    hide Drain;
    if pieces != [] {
      if d.verdict.Running? { DrainAccounts(d.Append(pieces[0]), max); }
      RunAccounts(Feed(d, pieces[0], max), pieces[1..], max);
    }
  }

  /** A size line for more than what the maximum leaves ends the transfer with 413, and a positive one
      within it never does. */
  lemma TooLargeExactly(d: Decoder, max: int)
    requires d.Live() && d.length == -1 && 0 <= max <= SAFE_MAX && Accounted(d, max)
    requires Find(d.buffer, CRLF) > 0
    ensures var n := ToContentLength(d.buffer[..Find(d.buffer, CRLF)], true);
            Drain(d, max).verdict.TooLarge? && Drain(d, max).sink == d.sink
            <== n == CONTENT_LENGTH_TOO_LARGE || |d.sink| + n > max
    ensures var n := ToContentLength(d.buffer[..Find(d.buffer, CRLF)], true);
            0 < n && |d.sink| + n <= max ==> Pass(d, max).Go? && Pass(d, max).d.total == |d.sink| + n
  {
    var n := ToContentLength(d.buffer[..Find(d.buffer, CRLF)], true);
    hide Find, ToContentLength;
    if n != CONTENT_LENGTH_INVALID && n != 0 { RefusedExactly(n, d.total, max); }
  }

  // ---- Soundness: what is accepted was an encoding

  /** The buffer is an accepted encoding of `chunks`, up to and including a terminator that may still
      lack octets of its final CRLF. */
  ghost predicate Encodes(chunks: seq<Chunk>, last: octets, buffer: octets) {
    AllAccepted(chunks) && Ends(last) && buffer == Body(chunks) + last
  }

  /** A successful call has read an encoding, of chunks that fit, of exactly what it delivered. */
  lemma {:induction false} SavedIsEncoding(d: Decoder, max: int) returns (chunks: seq<Chunk>, last: octets)
    requires d.Live() && d.length == -1
    requires Drain(d, max).verdict.Saved?
    ensures Encodes(chunks, last, d.buffer) && Fits(chunks, d.total, max)
    ensures Drain(d, max).sink == d.sink + Payload(chunks) && Drain(d, max).verdict == Saved(last)
    decreases |d.buffer|
  {
    hide Drain, SizeLine, Find, ToContentLength, Chunk.Accepted, Refused, Int32;
    if SizeLine(d, max).Stop? {
      SavedLast(d, max);
      last := d.buffer;
      chunks := [];
      assert d.buffer == Body([]) + last;
      assert d.sink + Payload([]) == d.sink;
    } else {
      var y := SizeLine(d, max).d;
      var c, b := SavedFirst(d, y, max);
      var cs;
      cs, last := SavedIsEncoding(Due(b, y.total, d.sink + c.data), max);
      hide *;
      chunks := [c] + cs;
      EncodesStep(c, cs, last, d.buffer, b);
      SizeFits(d, y, max);
      FitsStep(c, cs, d.total, max);
      Assoc(d.sink, c.data, Payload(cs));
    }
  }

  lemma SizeFits(d: Decoder, y: Decoder, max: int)
    requires d.Live() && d.length == -1 && SizeLine(d, max) == Go(y)
    ensures y.total == Int32(d.total + y.length) && !Refused(y.length, d.total, max)
  {
    hide ToContentLength, Find, Refused, Int32;
  }

  lemma FitsStep(c: Chunk, cs: seq<Chunk>, total: int, max: int)
    requires !Refused(|c.data|, total, max) && Fits(cs, Int32(total + |c.data|), max)
    ensures Fits([c] + cs, total, max)
  {
    hide Refused, Int32;
    assert ([c] + cs)[1..] == cs;
  }

  lemma EncodesStep(c: Chunk, cs: seq<Chunk>, last: octets, buffer: octets, b: octets)
    requires c.Accepted() && Encodes(cs, last, b)
    requires buffer == c.size + CRLF + c.data + CRLF + b
    ensures Encodes([c] + cs, last, buffer) && Payload([c] + cs) == c.data + Payload(cs)
  {
    hide Chunk.Accepted;
    var chunks := [c] + cs;
    assert chunks[0] == c && chunks[1..] == cs;
    assert c.size + CRLF + c.data + CRLF + (Body(cs) + last) == Body(chunks) + last;
  }

  lemma SavedLast(d: Decoder, max: int)
    requires d.Live() && d.length == -1 && SizeLine(d, max).Stop? && Drain(d, max).verdict.Saved?
    ensures Ends(d.buffer) && Drain(d, max).sink == d.sink && Drain(d, max).verdict == Saved(d.buffer)
  {
    hide ToContentLength;
  }

  lemma SavedFirst(d: Decoder, y: Decoder, max: int) returns (c: Chunk, b: octets)
    requires d.Live() && d.length == -1 && SizeLine(d, max) == Go(y) && Drain(d, max).verdict.Saved?
    ensures c.Accepted() && d.buffer == c.size + CRLF + c.data + CRLF + b
    ensures y.sink == d.sink && y.length == |c.data| && |b| < |d.buffer|
    ensures Drain(d, max) == Drain(Due(b, y.total, d.sink + c.data), max)
  {
    var size := AcceptedSize(d, y, max);
    hide SizeLine, Find, ToContentLength;
    DrainPass(d, y, max);
    b := SavedData(y, max);
    c := Chunk(size, y.buffer[..y.length]);
    hide *;
    ChunkRegrouped(size, c.data, b, y.buffer);
  }

  lemma ChunkRegrouped(size: octets, data: octets, b: octets, rest: octets)
    requires rest == data + CRLF + b
    ensures size + CRLF + rest == size + CRLF + data + CRLF + b
  {}

  /** The size line that was read, and the line that it would be in a chunk of its own. */
  lemma AcceptedSize(d: Decoder, y: Decoder, max: int) returns (size: octets)
    requires d.Live() && d.length == -1 && SizeLine(d, max) == Go(y)
    ensures d.buffer == size + CRLF + y.buffer && y.sink == d.sink && y.Live() && y.length > 0
    ensures forall data: octets :: |data| == y.length ==> Chunk(size, data).Accepted()
  {
    var pos := Find(d.buffer, CRLF);
    size := d.buffer[..pos];
    assert ToContentLength(size, true) == y.length > 0 && size != "" && y.buffer == d.buffer[pos + 2..];
    hide ToContentLength, SizeLine;
    FindPrefix(d.buffer, pos);
    SplitAtCrlf(d.buffer, pos);
    hide Find;
  }

  lemma SplitAtCrlf(s: octets, pos: nat)
    requires OccursAt(s, CRLF, pos)
    ensures s[..pos + 2] == s[..pos] + CRLF && s == s[..pos] + CRLF + s[pos + 2..]
  {
    assert s[..pos + 2] == s[..pos] + s[pos..pos + 2];
  }

  /** When the data of a chunk is followed by a successful end, all of it is there, and so is its CRLF. */
  lemma SavedData(y: Decoder, max: int) returns (b: octets)
    requires y.Live() && y.length > 0 && Drain(ChunkData(y), max).verdict.Saved?
    ensures |y.buffer| > y.length && y.buffer == y.buffer[..y.length] + CRLF + b
    ensures Drain(ChunkData(y), max) == Drain(Due(b, y.total, y.sink + y.buffer[..y.length]), max)
  {
    hide SizeLine, Find, ToContentLength;
    var z := ChunkData(y);
    assert z.buffer != "" && EndChunk(z).Go?;
    b := z.buffer[2..];
    assert z.buffer == CRLF + b;
    var x := EndChunk(z).d;
    assert x == Due(b, y.total, y.sink + y.buffer[..y.length]);
    assert b != "" by {
      if b == "" { WaitEmpty(x, max); }
    }
  }

  lemma WaitEmpty(x: Decoder, max: int)
    requires x.Live() && x.length == -1 && x.buffer == ""
    ensures SizeLine(x, max) == Stop(x)
  {}

  lemma FindPrefix(s: octets, pos: nat)
    requires Find(s, CRLF) == pos
    ensures Find(s[..pos + 2], CRLF) == pos
  {
    var t := s[..pos + 2];
    assert t + s[pos + 2..] == s;
    FindExtends(t, CRLF, s[pos + 2..]);
    assert OccursAt(t, CRLF, pos);
  }

  lemma FeedStart(stream: octets, max: int)
    ensures Feed(START, stream, max) == Drain(Due(stream, 0, ""), max)
    ensures Due(stream, 0, "").Live()
  {
    hide Drain;
    assert START.Append(stream) == Due(stream, 0, "") by { assert "" + stream == stream; }
  }

  /** An encoding of the body, in chunks that fit. */
  ghost predicate IsEncodingOf(stream: octets, body: octets, max: int) {
    exists chunks, last :: Encodes(chunks, last, stream) && Payload(chunks) == body && Fits(chunks, 0, max)
  }

  lemma AcceptedIsEncoding(stream: octets, max: int) returns (chunks: seq<Chunk>, last: octets)
    requires Feed(START, stream, max).verdict.Saved?
    ensures Encodes(chunks, last, stream) && Fits(chunks, 0, max)
    ensures Feed(START, stream, max).sink == Payload(chunks) && Feed(START, stream, max).verdict == Saved(last)
  {
    hide Drain, Feed, Payload, Encodes, Fits;
    FeedStart(stream, max);
    chunks, last := SavedIsEncoding(Due(stream, 0, ""), max);
    assert "" + Payload(chunks) == Payload(chunks);
  }

  lemma EncodingIsAccepted(stream: octets, chunks: seq<Chunk>, last: octets, max: int)
    requires Fits(chunks, 0, max) && Encodes(chunks, last, stream)
    ensures Feed(START, stream, max).verdict == Saved(last) && Feed(START, stream, max).sink == Payload(chunks)
  {
    hide Drain, Feed, Body, AllAccepted, Ends, Fits;
    FeedEncoded(chunks, last, max);
    assert "" + Payload(chunks) == Payload(chunks);
  }

  /** A stream that arrives in one piece is accepted, with body `body`, exactly when it starts with an
      encoding of `body` in chunks that fit. */
  lemma AcceptsExactly(stream: octets, body: octets, max: int)
    ensures Feed(START, stream, max).verdict.Saved? && Feed(START, stream, max).sink == body
            <==> IsEncodingOf(stream, body, max)
  {
    hide Drain, Feed, Encodes, Payload, Fits;
    if Feed(START, stream, max).verdict.Saved? {
      var chunks, last := AcceptedIsEncoding(stream, max);
      assert IsEncodingOf(stream, Payload(chunks), max);
    }
    if IsEncodingOf(stream, body, max) {
      var chunks, last :| Encodes(chunks, last, stream) && Payload(chunks) == body && Fits(chunks, 0, max);
      EncodingIsAccepted(stream, chunks, last, max);
    }
  }

  /** Below 2^30, chunks fit exactly when the body is within the maximum. */
  lemma {:induction false} FitsExactly(chunks: seq<Chunk>, total: int, max: int)
    requires AllAccepted(chunks) && 0 <= total <= max <= SAFE_MAX
    ensures Fits(chunks, total, max) <==> total + |Payload(chunks)| <= max
    decreases chunks
  {
    hide ToContentLength, Find;
    if chunks != [] {
      var c, cs := chunks[0], chunks[1..];
      assert c.Accepted() && AllAccepted(cs) && |Payload(chunks)| == |c.data| + |Payload(cs)|;
      hide Chunk.Accepted, Payload, AllAccepted;
      AcceptedLength(c);
      RefusedExactly(|c.data|, total, max);
      if total + |c.data| <= max { FitsExactly(cs, total + |c.data|, max); }
    }
  }

  lemma AcceptedLength(c: Chunk)
    requires c.Accepted()
    ensures 0 < |c.data| <= INT32_MAX
  {
    hide Find;
  }

  // ---- The maximum that lets totals wrap

  function Filled(n: nat): (s: octets)
    ensures |s| == n
  {
    seq(n, _ => 'a')
  }

  /** The largest chunk, twice. */
  function Twice(max: nat): seq<Chunk> {
    var c := Chunk(Numeral(|Filled(max)|, Hexadecimal), Filled(max));
    [c, c]
  }

  lemma TwiceAccepted(max: nat)
    requires 0 < max <= INT32_MAX
    ensures AllAccepted(Twice(max))
  {
    hide Numeral, Chunk.Standard, Chunk.Accepted;
    var c := Chunk(Numeral(|Filled(max)|, Hexadecimal), Filled(max));
    EncodeWhole(Filled(max));
    StandardIsAccepted(c);
    assert forall i :: 0 <= i < 2 ==> Twice(max)[i] == c;
  }

  lemma TwoFit(a: Chunk, b: Chunk, max: nat)
    requires SAFE_MAX < max <= INT32_MAX && |a.data| == |b.data| == max
    ensures Fits([a, b], 0, max)
  {
    assert [a, b][1..] == [b];
    assert Int32(max + max) == 2 * max - 0x1_0000_0000;
  }

  lemma TwoPayload(a: Chunk, b: Chunk)
    ensures Payload([a, b]) == a.data + b.data
  {
    assert [a, b][1..] == [b] && [b][1..] == [];
    assert b.data + Payload([]) == b.data;
    assert Payload([b]) == b.data;
  }

  /** From 2^30 on, two chunks of the maximum are taken one after the other: the total has wrapped. */
  lemma TwiceDelivered(max: nat)
    requires SAFE_MAX < max <= INT32_MAX
    ensures var x := Feed(START, Encode(Twice(max)), max); x.verdict.Saved? && |x.sink| == 2 * max
  {
    var chunks := Twice(max);
    hide Numeral;
    TwiceAccepted(max);
    TwoFit(chunks[0], chunks[1], max);
    TwoPayload(chunks[0], chunks[1]);
    assert chunks == [chunks[0], chunks[1]];
    hide *;
    TerminatorEnds("");
    assert CHUNK_TERMINATOR + "" == CHUNK_TERMINATOR;
    FeedEncoded(chunks, CHUNK_TERMINATOR, max);
    DecodedSink(chunks, CHUNK_TERMINATOR);
    EncodeIs(chunks);
  }

  lemma DecodedSink(chunks: seq<Chunk>, last: octets)
    ensures var x := Decoded(chunks, last, 0, ""); x.verdict.Saved? && x.sink == Payload(chunks)
  {
    assert "" + Payload(chunks) == Payload(chunks);
  }

  lemma EncodeIs(chunks: seq<Chunk>)
    ensures Encode(chunks) == Body(chunks) + CHUNK_TERMINATOR
  {}

  /** Every run keeps the accounts, and delivers at most the maximum, if and only if the maximum is below
      2^30. */
  lemma AccountedExactly(max: int)
    requires 0 <= max <= INT32_MAX
    ensures (forall pieces :: Accounted(FeedAll(START, pieces, max), max)) <==> max <= SAFE_MAX
  {
    if max <= SAFE_MAX {
      forall pieces ensures Accounted(FeedAll(START, pieces, max), max) {
        RunAccounts(START, pieces, max);
      }
    } else {
      var pieces := [Encode(Twice(max))];
      hide Drain, Encode, Twice;
      TwiceDelivered(max);
      assert pieces[1..] == [];
      assert !Accounted(FeedAll(START, pieces, max), max);
    }
  }

  // ---- Ends that are never recognised

  /** A last chunk that the decoder takes neither for an end nor for an error: its size is spelled with
      more than one zero, or trailer fields follow it. */
  predicate Unrecognised(last: octets) {
    var pos := Find(last, CRLF);
    pos > 0 && ToContentLength(last[..pos], true) == 0 && last[0] == '0' && !Agrees(last, CHUNK_TERMINATOR)
  }

  lemma {:induction false} DrainUnrecognised(chunks: seq<Chunk>, last: octets, total: int, sink: octets, max: int)
    requires AllAccepted(chunks) && Fits(chunks, total, max) && Unrecognised(last)
    ensures Drain(Due(Body(chunks) + last, total, sink), max)
            == Due(last, Counted(chunks, total), sink + Payload(chunks))
    decreases chunks
  {
    hide Drain, Chunk.Accepted, Find, ToContentLength, Refused, Int32;
    if chunks == [] {
      assert Body(chunks) + last == last && sink + Payload(chunks) == sink;
      WaitUnrecognised(last, total, sink, max);
    } else {
      var c, cs := chunks[0], chunks[1..];
      assert AllAccepted(cs) && c.Accepted() && last != "";
      hide Body, AllAccepted, Unrecognised;
      DecodeFirst(chunks, last, total, sink, max);
      DrainUnrecognised(cs, last, Int32(total + |c.data|), sink + c.data, max);
      Assoc(sink, c.data, Payload(cs));
    }
  }

  lemma WaitUnrecognised(last: octets, total: int, sink: octets, max: int)
    requires Unrecognised(last)
    ensures Drain(Due(last, total, sink), max) == Due(last, total, sink)
  {
    ZeroLine(last);
    hide Find, ToContentLength;
  }

  /** Such a transfer, read in one piece, has delivered its whole body and waits. */
  lemma UnrecognisedWaits(chunks: seq<Chunk>, last: octets, max: int)
    requires AllAccepted(chunks) && Fits(chunks, 0, max) && Unrecognised(last)
    ensures Feed(START, Body(chunks) + last, max) == Due(last, Counted(chunks, 0), Payload(chunks))
  {
    hide Drain, Unrecognised, Body, AllAccepted, Fits;
    FeedStart(Body(chunks) + last, max);
    DrainUnrecognised(chunks, last, 0, "", max);
    assert "" + Payload(chunks) == Payload(chunks);
  }

  lemma UnrecognisedStays(last: octets, more: octets)
    requires Unrecognised(last)
    ensures Unrecognised(last + more)
  {
    hide ToContentLength;
    var pos := Find(last, CRLF);
    FindExtends(last, CRLF, more);
    assert (last + more)[..pos] == last[..pos] && (last + more)[0] == last[0];
    if Agrees(last + more, CHUNK_TERMINATOR) { AgreesPrefix(last, more, CHUNK_TERMINATOR); }
  }
}
