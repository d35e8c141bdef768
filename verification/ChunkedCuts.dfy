/** When the cuts of a chunked stream matter, told by the stream and its cuts alone. */
module ChunkedCuts {
  import opened Octets
  import opened Numbers
  import opened ChunkedCoding
  import opened ChunkedLimits

  // ---- The call that ends a transfer

  /** The call on the first `k` pieces, and the octets that arrive after it. */
  ghost predicate SavedAt(pieces: seq<octets>, k: nat, last: octets, max: int) {
    && k <= |pieces| && Feed(START, Concat(pieces[..k]), max).verdict == Saved(last)
    && !Agrees(last + Concat(pieces[k..]), CHUNK_TERMINATOR)
  }

  lemma {:induction false} FeedAllSplit(d: Decoder, xs: seq<octets>, ys: seq<octets>, max: int)
    requires d.verdict.Running? ==> d.Live()
    ensures FeedAll(d, xs + ys, max) == FeedAll(FeedAll(d, xs, max), ys, max)
    decreases xs
  {
    hide Drain;
    if xs == [] {
      assert xs + ys == ys;
    } else {
      assert (xs + ys)[0] == xs[0] && (xs + ys)[1..] == xs[1..] + ys;
      FeedAllSplit(Feed(d, xs[0], max), xs[1..], ys, max);
    }
  }

  lemma StartIsLive()
    ensures START.Live() && START.verdict.Running? && Drain(START, 0) == START
  {}

  lemma OneMoreRead(pieces: seq<octets>, k: nat, max: int)
    requires 1 <= k <= |pieces|
    ensures Concat(pieces[..k]) == Concat(pieces[..k - 1]) + pieces[k - 1]
    ensures var d := FeedAll(START, pieces[..k - 1], max);
            && FeedAll(START, pieces[..k], max) == Feed(d, pieces[k - 1], max)
            && (Feed(d, pieces[k - 1], max).verdict.Running? ==> d.verdict.Running?)
  {
    var front, p := pieces[..k - 1], pieces[k - 1];
    assert pieces[..k] == front + [p];
    StartIsLive();
    hide Drain, Feed;
    FeedAllSplit(START, front, [p], max);
    FeedOne(FeedAll(START, front, max), p, max);
    ConcatAppend(front, [p]);
    assert Concat([p]) == p;
  }

  lemma NoReads(pieces: seq<octets>, max: int)
    ensures FeedAll(START, pieces[..0], max) == Feed(START, Concat(pieces[..0]), max)
  {
    assert pieces[..0] == [];
  }

  /** Reads that all leave the transfer running make up one buffer. */
  lemma {:induction false} RunningIsOnePiece(pieces: seq<octets>, k: nat, max: int)
    requires k <= |pieces| && FeedAll(START, pieces[..k], max).verdict.Running?
    ensures FeedAll(START, pieces[..k], max) == Feed(START, Concat(pieces[..k]), max)
    decreases k
  {
    StartIsLive();
    hide Drain, Feed, FeedAll, Concat;
    if k == 0 {
      NoReads(pieces, max);
    } else {
      OneMoreRead(pieces, k, max);
      RunningIsOnePiece(pieces, k - 1, max);
      FeedTwice(START, Concat(pieces[..k - 1]), pieces[k - 1], max);
    }
  }

  lemma FeedOne(d: Decoder, p: octets, max: int)
    requires d.verdict.Running? ==> d.Live()
    ensures FeedAll(d, [p], max) == Feed(d, p, max)
    ensures Feed(d, p, max).verdict.Running? ==> d.verdict.Running?
  {
    hide Drain;
    assert [p][1..] == [];
  }

  /** The pieces up to the one at which the transfer ends, if it ends. */
  lemma {:induction false} EndsAt(pieces: seq<octets>, max: int) returns (k: nat)
    requires !FeedAll(START, pieces, max).verdict.Running?
    ensures 1 <= k <= |pieces|
    ensures FeedAll(START, pieces[..k - 1], max).verdict.Running? && !FeedAll(START, pieces[..k], max).verdict.Running?
    decreases |pieces|
  {
    StartIsLive();
    hide Drain, Feed;
    assert pieces != [];
    var n := |pieces| - 1;
    assert pieces[..n + 1] == pieces;
    if FeedAll(START, pieces[..n], max).verdict.Running? {
      k := n + 1;
    } else {
      k := EndsAt(pieces[..n], max);
      assert pieces[..n][..k] == pieces[..k] && pieces[..n][..k - 1] == pieces[..k - 1];
    }
  }

  /** The state at the end is the state of the call that ended the transfer, and what arrived after it. */
  lemma EndedState(pieces: seq<octets>, k: nat, max: int)
    requires 1 <= k <= |pieces|
    requires FeedAll(START, pieces[..k - 1], max).verdict.Running? && !FeedAll(START, pieces[..k], max).verdict.Running?
    ensures var x := Feed(START, Concat(pieces[..k]), max);
            var y := FeedAll(START, pieces[..k], max);
            y == x && FeedAll(START, pieces, max) == y.Append(Concat(pieces[k..]))
  {
    assert pieces == pieces[..k] + pieces[k..];
    StartIsLive();
    hide Drain, Feed, FeedAll, Concat;
    FeedAllSplit(START, pieces[..k], pieces[k..], max);
    FeedAfterEnd(FeedAll(START, pieces[..k], max), pieces[k..], max);
    OneMoreRead(pieces, k, max);
    RunningIsOnePiece(pieces, k - 1, max);
    FeedTwice(START, Concat(pieces[..k - 1]), pieces[k - 1], max);
  }

  lemma SavedBuffer(stream: octets, max: int)
    requires Feed(START, stream, max).verdict.Saved?
    ensures Feed(START, stream, max).buffer == ""
  {
    StartIsLive();
    hide Drain;
    SavedClears(START.Append(stream), max);
  }

  /** A call that ended the transfer too early has left its mark on the whole run. */
  lemma HastyIsSavedAt(pieces: seq<octets>, max: int) returns (k: nat, last: octets)
    requires Hasty(FeedAll(START, pieces, max))
    ensures SavedAt(pieces, k, last, max)
  {
    hide Drain, Feed, FeedAll;
    k := EndsAt(pieces, max);
    EndedState(pieces, k, max);
    var x := Feed(START, Concat(pieces[..k]), max);
    SavedBuffer(Concat(pieces[..k]), max);
    last := x.verdict.dropped;
    assert "" + Concat(pieces[k..]) == Concat(pieces[k..]);
  }

  lemma FeedExtends(stream: octets, b: octets, max: int)
    ensures var x, y := Feed(START, stream, max), Feed(START, stream + b, max);
            match x.verdict
            case Running => true
            case Saved(dropped) =>
              if Agrees(dropped + b, CHUNK_TERMINATOR) then y.verdict == Saved(dropped + b)
              else y == x.(buffer := dropped + b, length := -1, verdict := Running)
            case _ => !y.verdict.Saved? && !y.verdict.Running?
  {
    StartIsLive();
    hide Drain;
    DrainExtends(START.Append(stream), b, max);
    assert START.Append(stream).Append(b) == START.Append(stream + b);
  }

  /** When one call on the first `k` pieces would end the transfer, so do the calls on these pieces. */
  lemma SavedIsLeftover(pieces: seq<octets>, last: octets, max: int)
    requires Feed(START, Concat(pieces), max).verdict == Saved(last)
    ensures FeedAll(START, pieces, max).verdict.Saved? && Leftover(FeedAll(START, pieces, max)) == last
  {
    hide Drain, Feed, FeedAll;
    assert pieces[..|pieces|] == pieces;
    if FeedAll(START, pieces, max).verdict.Running? {
      RunningIsOnePiece(pieces, |pieces|, max);
    } else {
      var k := EndsAt(pieces, max);
      EndedState(pieces, k, max);
      assert pieces == pieces[..k] + pieces[k..];
      ConcatAppend(pieces[..k], pieces[k..]);
      FeedExtends(Concat(pieces[..k]), Concat(pieces[k..]), max);
      var x := Feed(START, Concat(pieces[..k]), max);
      if x.verdict.Saved? {
        SavedBuffer(Concat(pieces[..k]), max);
        assert "" + Concat(pieces[k..]) == Concat(pieces[k..]);
      }
    }
  }

  lemma SavedAtIsHasty(pieces: seq<octets>, k: nat, last: octets, max: int)
    requires SavedAt(pieces, k, last, max)
    ensures Hasty(FeedAll(START, pieces, max))
  {
    StartIsLive();
    hide Drain, Feed, FeedAll, Concat, Agrees;
    var front, rest := pieces[..k], pieces[k..];
    assert pieces == front + rest;
    SavedIsLeftover(front, last, max);
    FeedAllSplit(START, front, rest, max);
    var x := FeedAll(START, front, max);
    FeedAfterEnd(x, rest, max);
    Assoc(x.verdict.dropped, x.buffer, Concat(rest));
  }

  // ---- Streams and cuts

  /** Some read ends where what has arrived is an encoding, in chunks that fit, up to a `0` CRLF and perhaps
      octets of the CRLF that is to follow, and then other octets arrive. */
  ghost predicate EndsEarly(pieces: seq<octets>, max: int) {
    exists k, chunks, last :: EndsEarlyAt(pieces, k, chunks, last, max)
  }

  ghost predicate EndsEarlyAt(pieces: seq<octets>, k: int, chunks: seq<Chunk>, last: octets, max: int) {
    && 0 <= k <= |pieces| && Encodes(chunks, last, Concat(pieces[..k])) && Fits(chunks, 0, max)
    && !Agrees(last + Concat(pieces[k..]), CHUNK_TERMINATOR)
  }

  lemma HastyExactly(pieces: seq<octets>, max: int)
    ensures Hasty(FeedAll(START, pieces, max)) <==> EndsEarly(pieces, max)
  {
    hide Drain, Feed, FeedAll, Encodes, Fits;
    if Hasty(FeedAll(START, pieces, max)) {
      var k, last := HastyIsSavedAt(pieces, max);
      var chunks, last' := AcceptedIsEncoding(Concat(pieces[..k]), max);
      assert EndsEarlyAt(pieces, k, chunks, last, max);
    }
    if EndsEarly(pieces, max) {
      var k, chunks, last :| EndsEarlyAt(pieces, k, chunks, last, max);
      EncodingIsAccepted(Concat(pieces[..k]), chunks, last, max);
      SavedAtIsHasty(pieces, k, last, max);
    }
  }

  /** Any cutting of any stream, malformed ones included, delivers the same octets, status and state as one
      read, if and only if no read ends early; if one does, the transfer ends in success, where one read
      would leave it waiting. */
  lemma Confluence(pieces: seq<octets>, max: int)
    requires pieces != []
    ensures var x, y := FeedAll(START, pieces, max), Feed(START, Concat(pieces), max);
            && (Same(x, y) <==> !EndsEarly(pieces, max))
            && (EndsEarly(pieces, max) ==> x.verdict.Saved? && y.verdict.Running? && x.sink == y.sink)
  {
    StartIsLive();
    hide Drain, Feed, FeedAll, EndsEarly, Agrees, Same;
    CutsCompared(START, pieces, max);
    HastyExactly(pieces, max);
  }

  // ---- Ends that are not recognised

  /** Some read ends where what has arrived behind the first `n` octets looks like the end of a transfer. */
  ghost predicate EndsARead(pieces: seq<octets>, n: nat) {
    exists k :: 0 <= k <= |pieces| && EndsAfter(Concat(pieces[..k]), n)
  }

  predicate EndsAfter(stream: octets, n: nat) {
    n <= |stream| && Ends(stream[n..])
  }

  lemma PiecesAre(pieces: seq<octets>, k: nat)
    requires k <= |pieces|
    ensures Concat(pieces) == Concat(pieces[..k]) + Concat(pieces[k..])
  {
    assert pieces == pieces[..k] + pieces[k..];
    ConcatAppend(pieces[..k], pieces[k..]);
  }

  /** A call that ended such a transfer had read all of its chunks. */
  lemma SavedBehindBody(chunks: seq<Chunk>, last: octets, pieces: seq<octets>, k: nat, dropped: octets, max: int)
    requires AllAccepted(chunks) && Fits(chunks, 0, max) && Unrecognised(last)
    requires Concat(pieces) == Body(chunks) + last && SavedAt(pieces, k, dropped, max)
    ensures EndsAfter(Concat(pieces[..k]), |Body(chunks)|)
  {
    var stream, rest := Concat(pieces[..k]), Concat(pieces[k..]);
    PiecesAre(pieces, k);
    hide Drain, Feed, Concat, AllAccepted, Fits, Unrecognised, Body, Agrees;
    UnrecognisedWaits(chunks, last, max);
    FeedExtends(stream, rest, max);
    assert dropped + rest == last;
    var cs, last' := AcceptedIsEncoding(stream, max);
    assert Ends(dropped) && stream == Body(cs) + dropped;
    hide Ends;
    BehindBody(Body(chunks), dropped, rest, stream);
  }

  lemma BehindBody(body: octets, dropped: octets, rest: octets, stream: octets)
    requires stream + rest == body + (dropped + rest)
    ensures |body| <= |stream| && stream[|body|..] == dropped
  {
    Assoc(body, dropped, rest);
    assert stream == (stream + rest)[..|stream|];
    assert stream == body + dropped;
  }

  lemma SeenBehind(body: octets, last: octets, stream: octets, rest: octets)
    requires stream + rest == body + last && |body| <= |stream|
    ensures stream == body + stream[|body|..] && stream[|body|..] + rest == last
  {
    assert stream[..|body|] == (body + last)[..|body|] == body;
    assert stream[|body|..] + rest == (body + last)[|body|..] == last;
  }

  lemma EndsBehindBody(chunks: seq<Chunk>, last: octets, pieces: seq<octets>, k: nat, max: int)
    requires AllAccepted(chunks) && Fits(chunks, 0, max) && Unrecognised(last)
    requires Concat(pieces) == Body(chunks) + last && k <= |pieces|
    requires EndsAfter(Concat(pieces[..k]), |Body(chunks)|)
    ensures Hasty(FeedAll(START, pieces, max))
  {
    var stream, rest, n := Concat(pieces[..k]), Concat(pieces[k..]), |Body(chunks)|;
    var seen := stream[n..];
    assert !Agrees(last, CHUNK_TERMINATOR);
    hide Drain, Feed, FeedAll, Concat, AllAccepted, Fits, Unrecognised, Body, Agrees, Ends;
    PiecesAre(pieces, k);
    SeenBehind(Body(chunks), last, stream, rest);
    assert Encodes(chunks, seen, stream);
    EncodingIsAccepted(stream, chunks, seen, max);
    SavedAtIsHasty(pieces, k, seen, max);
  }

  /** A last chunk with trailers, or with more than one zero, has delivered its whole body. The transfer then
      waits, and would whatever followed, if and only if no read ended where the octets behind the body
      looked like an end; otherwise it ends in success. */
  lemma UnrecognisedExactly(chunks: seq<Chunk>, last: octets, pieces: seq<octets>, max: int)
    requires AllAccepted(chunks) && Fits(chunks, 0, max) && Unrecognised(last)
    requires Concat(pieces) == Body(chunks) + last
    ensures var x := FeedAll(START, pieces, max);
            && (x.verdict.Running? <==> !EndsARead(pieces, |Body(chunks)|))
            && (x.verdict.Running? ==> x == Due(last, Counted(chunks, 0), Payload(chunks)))
            && (!x.verdict.Running? ==> x.verdict.Saved? && x.sink == Payload(chunks))
  {
    assert last != "" && pieces != [];
    StartIsLive();
    hide Drain, Feed, FeedAll, AllAccepted, Fits, Unrecognised, Body, Agrees, Ends, Concat;
    UnrecognisedWaits(chunks, last, max);
    CutsCompared(START, pieces, max);
    var x := FeedAll(START, pieces, max);
    if Hasty(x) {
      var k, dropped := HastyIsSavedAt(pieces, max);
      SavedBehindBody(chunks, last, pieces, k, dropped, max);
    } else if EndsARead(pieces, |Body(chunks)|) {
      var k :| 0 <= k <= |pieces| && EndsAfter(Concat(pieces[..k]), |Body(chunks)|);
      EndsBehindBody(chunks, last, pieces, k, max);
    }
  }

  /** What follows such an end does not make it one. */
  lemma UnrecognisedForEver(last: octets, more: octets)
    requires Unrecognised(last)
    ensures Unrecognised(last + more)
  {
    hide Unrecognised;
    UnrecognisedStays(last, more);
  }

  /** With two zeros no cut helps: the transfer always waits. */
  lemma TwoZerosAlwaysWait(chunks: seq<Chunk>, last: octets, pieces: seq<octets>, max: int)
    requires AllAccepted(chunks) && Fits(chunks, 0, max) && Unrecognised(last) && last[1] != '\r'
    requires Concat(pieces) == Body(chunks) + last
    ensures FeedAll(START, pieces, max) == Due(last, Counted(chunks, 0), Payload(chunks))
  {
    var n := |Body(chunks)|;
    forall k: nat | k <= |pieces| ensures !EndsAfter(Concat(pieces[..k]), n) {
      SecondOctet(pieces, k, Body(chunks), last);
    }
    hide Drain, Feed, FeedAll, AllAccepted, Fits, Unrecognised, Body, EndsAfter, Concat;
    UnrecognisedExactly(chunks, last, pieces, max);
  }

  lemma SecondOctet(pieces: seq<octets>, k: nat, body: octets, last: octets)
    requires k <= |pieces| && Concat(pieces) == body + last && |last| >= 2 && last[1] != '\r'
    ensures !EndsAfter(Concat(pieces[..k]), |body|)
  {
    PiecesAre(pieces, k);
    hide Concat;
    var stream := Concat(pieces[..k]);
    if |stream| >= |body| + 3 {
      var seen := stream[|body|..];
      assert seen[1] == (body + last)[|body| + 1] == last[1];
      var n := if |seen| <= 5 then |seen| else 5;
      assert seen[..n][1] == seen[1] && CHUNK_TERMINATOR[..n][1] == '\r';
    }
  }
}
