/** A body of declared length, as `_readContent` takes it (srcs/Request/ARequest-body.cpp:80-100). */
module IdentityCoding {
  import opened Octets
  import opened ChunkedCoding
  import opened FileWrites

  /** One call: `length` is what the declared length leaves. */
  function Take(d: Decoder): (r: Decoder)
    requires d.verdict.Running?
  {
    if d.length - |d.buffer| >= 0 then
      d.(sink := d.sink + d.buffer, length := d.length - |d.buffer|, buffer := "",
         verdict := if d.length == |d.buffer| then Saved("") else Running)
    else d.(verdict := BadRequest)
  }

  function TakePiece(d: Decoder, piece: octets): Decoder {
    if d.verdict.Running? then Take(d.Append(piece)) else d.Append(piece)
  }

  function TakeAll(d: Decoder, pieces: seq<octets>): Decoder
    decreases pieces
  {
    if pieces == [] then d else TakeAll(TakePiece(d, pieces[0]), pieces[1..])
  }

  /** Some reads from the first one on, at least one, make up exactly `n` octets. */
  ghost predicate Reaches(pieces: seq<octets>, n: int) {
    exists k :: 1 <= k <= |pieces| && |Concat(pieces[..k])| == n
  }

  /** Sink and remaining length always make the declared length; a read beyond it adds nothing. */
  predicate Conserved(d: Decoder, n: nat) {
    && (d.verdict.Running? ==> d.buffer == "" && |d.sink| + d.length == n && d.length > 0)
    && (d.verdict.Saved? ==> |d.sink| == n)
    && (d.verdict.BadRequest? ==> |d.sink| + d.length == n && d.length > 0 && |d.buffer| > d.length)
    && !d.verdict.BadDelimiter? && !d.verdict.TooLarge?
  }

  lemma TakeConserves(d: Decoder, piece: octets, n: nat)
    requires Conserved(d, n)
    ensures Conserved(TakePiece(d, piece), n)
    ensures d.verdict.Running? ==>
              var r := TakePiece(d, piece);
              && (|piece| < d.length ==> r.verdict.Running? && r.sink == d.sink + piece)
              && (|piece| == d.length ==> r.verdict.Saved? && r.sink == d.sink + piece)
              && (|piece| > d.length ==> r.verdict.BadRequest? && r.sink == d.sink)
  {
    assert "" + piece == piece;
  }

  /** The octets that were taken: all reads while the declared length is not exceeded. */
  lemma {:induction false} Conservation(d: Decoder, pieces: seq<octets>, n: nat)
    requires Conserved(d, n)
    ensures var r := TakeAll(d, pieces);
            && Conserved(r, n)
            && d.sink <= r.sink <= d.sink + Concat(pieces)
            && (r.verdict.Running? <==> d.verdict.Running? && |d.sink| + |Concat(pieces)| < n)
            && (r.verdict.Running? ==> r.sink == d.sink + Concat(pieces))
    decreases pieces
  {
    if pieces == [] {
      assert d.sink + Concat(pieces) == d.sink;
    } else {
      var p, rest := pieces[0], pieces[1..];
      var d1 := TakePiece(d, p);
      TakeConserves(d, p, n);
      Conservation(d1, rest, n);
      Assoc(d.sink, p, Concat(rest));
      if !d1.verdict.Running? { EndedStays(d1, rest); }
    }
  }

  lemma {:induction false} EndedStays(d: Decoder, pieces: seq<octets>)
    requires !d.verdict.Running?
    ensures TakeAll(d, pieces).verdict == d.verdict && TakeAll(d, pieces).sink == d.sink
    decreases pieces
  {
    if pieces != [] { EndedStays(TakePiece(d, pieces[0]), pieces[1..]); }
  }

  /** The transfer succeeds exactly when some reads make up the declared length, and has then taken
      precisely the octets of that length in order. */
  lemma {:induction false} SucceedsExactly(d: Decoder, pieces: seq<octets>, n: nat)
    requires Conserved(d, n) && d.verdict.Running?
    ensures var r := TakeAll(d, pieces);
            && (r.verdict.Saved? <==> Reaches(pieces, d.length))
            && (r.verdict.Saved? ==> d.length <= |Concat(pieces)| && r.sink == d.sink + Concat(pieces)[..d.length])
    decreases pieces
  {
    if pieces != [] {
      var p, rest := pieces[0], pieces[1..];
      var d1 := TakePiece(d, p);
      TakeConserves(d, p, n);
      ReachesStep(pieces, d.length);
      if d1.verdict.Running? {
        SucceedsExactly(d1, rest, n);
        if d1.length <= |Concat(rest)| {
          TakeDropAppend(p, Concat(rest), d.length);
          Assoc(d.sink, p, Concat(rest)[..d1.length]);
        }
      } else {
        EndedStays(d1, rest);
        assert Concat(pieces)[..|p|] == p;
        assert |p| > d.length ==> !Reaches(rest, d.length - |p|);
      }
    }
  }

  lemma ReachesStep(pieces: seq<octets>, n: nat)
    requires pieces != []
    ensures Reaches(pieces, n) <==> |pieces[0]| == n || Reaches(pieces[1..], n - |pieces[0]|)
  {
    assert pieces[..1] == [pieces[0]] && Concat([pieces[0]]) == pieces[0];
    assert |pieces[0]| == n ==> |Concat(pieces[..1])| == n;
    forall k | 2 <= k <= |pieces| ensures |Concat(pieces[..k])| == |pieces[0]| + |Concat(pieces[1..][..k - 1])| {
      assert pieces[..k][1..] == pieces[1..][..k - 1];
    }
    if k :| 1 <= k <= |pieces[1..]| && |Concat(pieces[1..][..k])| == n - |pieces[0]| {
      assert |Concat(pieces[..k + 1])| == n;
    }
  }

  /** What the file branch of `_writeChunk` writes: the whole remaining length, at every call that does not
      exceed it. */
  function Writes(d: Decoder): seq<Cell>
    requires d.verdict.Running? && d.length >= 0
  {
    if |d.buffer| <= d.length then Written(d.buffer, d.length) else []
  }

  function WritesAll(d: Decoder, pieces: seq<octets>): seq<Cell>
    requires d.verdict.Running? ==> d.length >= 0
    decreases pieces
  {
    if pieces == [] then []
    else (if d.verdict.Running? then Writes(d.Append(pieces[0])) else [])
         + WritesAll(TakePiece(d, pieces[0]), pieces[1..])
  }

  lemma {:induction false} WritesAtLeast(d: Decoder, pieces: seq<octets>, n: nat)
    requires Conserved(d, n)
    ensures |WritesAll(d, pieces)| >= |TakeAll(d, pieces).sink| - |d.sink|
    decreases pieces
  {
    hide Written;
    if pieces != [] {
      TakeConserves(d, pieces[0], n);
      WritesAtLeast(TakePiece(d, pieces[0]), pieces[1..], n);
    }
  }

  /** A file upload of declared length writes exactly what is delivered if and only if the first call settles
      the transfer; otherwise the file is longer. */
  lemma FileExactly(d: Decoder, pieces: seq<octets>, n: nat)
    requires Conserved(d, n) && d.verdict.Running? && d.sink == ""
    ensures var file, sink := WritesAll(d, pieces), TakeAll(d, pieces).sink;
            && (file == Cells(sink) <==> pieces == [] || |pieces[0]| >= d.length)
            && (file != Cells(sink) ==> |file| > |sink|)
  {
    hide Cells;
    CellsAppend("", "");
    if pieces != [] {
      var p, d1 := pieces[0], TakePiece(d, pieces[0]);
      TakeConserves(d, p, n);
      WritesAtLeast(d1, pieces[1..], n);
      assert d.buffer + p == p && "" + p == p;
      assert |p| == d.length ==> p[..d.length] == p;
      if !d1.verdict.Running? { EndedWritesNothing(d1, pieces[1..]); }
      hide Written, TakeAll;
    }
  }

  lemma {:induction false} EndedWritesNothing(d: Decoder, pieces: seq<octets>)
    requires !d.verdict.Running?
    ensures WritesAll(d, pieces) == [] && TakeAll(d, pieces).sink == d.sink
    decreases pieces
  {
    if pieces != [] { EndedWritesNothing(TakePiece(d, pieces[0]), pieces[1..]); }
  }
}
